# GPU distribution of workgroup-memory copies, modelled in Dafny

This project models the core of IREE's `GPUDistributeSharedMemoryCopy` pass.
The pass lowers `linalg.generic` copies into GPU workgroup (shared) memory to
per-thread vector transfers. First it cleans up the function body:

- it hoists every `memref.alloc` without operands to the top of the entry block;
- it erases the `gpu.barrier` ops that sit between two marked copies.

Then it picks one of two paths.

On the **aligned path** it runs three rewrite stages whose order comes from
transformation markers:

1. serial tiling into a shape whose iteration count equals the flat workgroup size;
2. parallel tiling by the native destination shape, distributed onto threads;
3. vectorization.

The threads are numbered by a flat id built from the 3-D thread id. That id
is split back into one processor id per parallel loop (`getIds`). Finally
every newly created `scf.for` with a static trip count is fully unrolled.

On the **fallback path** the copy is tiled per thread with a fixed tile-size
function.

The modules follow the pass's structure:

- `VectorWidth`: the 128-bit transfer width, `kNumGPUDims`, and the target vector size `128 / bitWidth`.
- `TilePlan`: `getTileToDistributableSize` against a declarative plan predicate, `getNativeDstShape`, and the fallback tile-size function.
- `ProcIds`: `createFlatId` and `getIds`, with the mixed-radix digits of the flat id as their specification.
- `Unroll`: `numIteration`, the `mlir::ceilDiv` it calls, and the choice of loops `UnrollSharedMemoryLoops` unrolls.
- `Markers`: the transformation filters of the stages and the marker transitions they cause.
- `OpList`: the function body as a class holding its op sequence, with `hoistAlloc` and `removeRedundantBarriers` as methods that update it in place.
- `Distribution`: lemmas relating the stages. A plan from stage 1, tiled by the native shape of stage 2, gives parallel loops whose thread counts multiply to the workgroup size. So every thread gets an in-range processor id for every loop.
- `Arith` and `SeqUtil` are helpers:
  - C++ truncating division;
  - facts about products and mixed-radix digits;
  - sequence reversal.

Integer values are unbounded (`int`). C++ `/` on signed operands, which
truncates toward zero, is written out as `Arith.TruncDiv`.

## Model

| member | source | states |
|---|---|---|
| VectorWidth.TargetVectorSize | compiler/src/iree/compiler/Codegen/Common/GPUDistributeSharedMemoryCopy.cpp:104-106 | the target vector size is the largest element count whose bits fit in one 128-bit transfer, and it is at least 1 exactly when the element width is at most 128 bits |
| TilePlan.GetTileToDistributableSize | compiler/src/iree/compiler/Codegen/Common/GPUDistributeSharedMemoryCopy.cpp:99-123 | the greedy walk from the innermost dimension outwards returns a plan whose per-dimension thread counts multiply to the flat workgroup size, with each dimension taking at most its chunks and the outer ones left at 1; when the source's assertions would fail it returns none, and then no such plan exists |
| TilePlan.PlanIsGreedy | compiler/src/iree/compiler/Codegen/Common/GPUDistributeSharedMemoryCopy.cpp:110-118 | in a plan, each dimension takes the smaller of its chunk count and the threads the inner dimensions leave, and that number divides what is left |
| TilePlan.PlanUnique | compiler/src/iree/compiler/Codegen/Common/GPUDistributeSharedMemoryCopy.cpp:99-123 | a copy shape, vector size and workgroup size admit at most one plan, so the function is determined by the plan predicate |
| TilePlan.TileFromThreads | compiler/src/iree/compiler/Codegen/Common/GPUDistributeSharedMemoryCopy.cpp:111-114 | each tile size is the dimension's thread count times its elements per thread (the vector size innermost, 1 elsewhere) |
| TilePlan.PlanBounds | compiler/src/iree/compiler/Codegen/Common/GPUDistributeSharedMemoryCopy.cpp:108-121 | every planned tile size lies between 1 and the extent of its dimension, and the innermost one is a positive multiple of the vector size |
| TilePlan.InnermostTakesAll | compiler/src/iree/compiler/Codegen/Common/GPUDistributeSharedMemoryCopy.cpp:110-117 | when the innermost dimension has at least as many vectors as there are threads, the plan gives all threads to it and leaves every outer tile at 1 |
| TilePlan.PlanExample | compiler/src/iree/compiler/Codegen/Common/GPUDistributeSharedMemoryCopy.cpp:99-123 | a 4x128 copy of 32-bit elements over 64 threads is planned as tiles 2x128 |
| TilePlan.GetNativeDstShape | compiler/src/iree/compiler/Codegen/Common/GPUDistributeSharedMemoryCopy.cpp:187-200 | the native shape skips (0) every outer dimension of extent 1, gives 1 to every other outer dimension and the target vector size to the innermost |
| TilePlan.GetThreadTileSizes | compiler/src/iree/compiler/Codegen/Common/GPUDistributeSharedMemoryCopy.cpp:52-73 | the fallback tile sizes are 1 for the outer dimensions among the innermost three and 0 beyond, with the target vector size innermost; for elements of at most 128 bits exactly min(rank, 3) dimensions are tiled (a wider element makes the innermost size 0) |
| ProcIds.FlatIdInverse | compiler/src/iree/compiler/Codegen/Common/GPUDistributeSharedMemoryCopy.cpp:249-267 | for a thread inside the workgroup, the flat id `ProcIds.CreateFlatId` (x + Sx*y + (Sx*Sy)*z) is below the flat workgroup size, and x, y and z can be read back from it by remainder and division |
| ProcIds.NumProcs | compiler/src/iree/compiler/Codegen/Common/GPUDistributeSharedMemoryCopy.cpp:168-170 | the thread count of a loop is `(size - offset) / stride` with C++ truncating division; for a positive stride and a non-empty range it is the number of whole strides that fit in the range |
| ProcIds.GetIds | compiler/src/iree/compiler/Codegen/Common/GPUDistributeSharedMemoryCopy.cpp:156-183 | per loop, the processor id is the mixed-radix digit of the flat id (innermost loop first, the outermost taking the unreduced quotient), with the loop's thread count as nprocs and the cyclic method; recombining the digits gives back the flat id; for an id below the product of the thread counts every digit is below its count |
| ProcIds.ProcIdOfBounds | compiler/src/iree/compiler/Codegen/Common/GPUDistributeSharedMemoryCopy.cpp:168-179 | a flat id below the product of the loops' thread counts gives every loop a processor id in range |
| ProcIds.DigitsOfRecombine | compiler/src/iree/compiler/Codegen/Common/GPUDistributeSharedMemoryCopy.cpp:168-179 | in-range processor ids, recombined into a flat id, are split back into the same ids, so the split is a bijection onto the thread grid |
| Unroll.CeilDiv | compiler/src/iree/compiler/Codegen/Common/GPUDistributeSharedMemoryCopy.cpp:310-311 | the rounded-up quotient: the least multiple of a positive divisor not below the dividend, mirrored for a negative divisor |
| Unroll.NumIteration | compiler/src/iree/compiler/Codegen/Common/GPUDistributeSharedMemoryCopy.cpp:303-313 | 0 unless lower bound, upper bound and step are constants that are not negative, and otherwise the rounded-up quotient of the distance by the step |
| Unroll.ZeroToN | compiler/src/iree/compiler/Codegen/Common/GPUDistributeSharedMemoryCopy.cpp:303-313 | a loop from 0 to n with step 1 has n iterations |
| Unroll.NumIterationNegativeExample | compiler/src/iree/compiler/Codegen/Common/GPUDistributeSharedMemoryCopy.cpp:310-312 | as written, the loop from 4 down to 0 with step 1 gets the count -4, while its trip count is 0 |
| Unroll.NumIterationNegative | compiler/src/iree/compiler/Codegen/Common/GPUDistributeSharedMemoryCopy.cpp:310-312 | as written, the count is negative whenever the upper bound is a step or more below the lower bound, although such a loop never runs |
| Unroll.TripCount | compiler/src/iree/compiler/Codegen/Common/GPUDistributeSharedMemoryCopy.cpp:303-313 | the corrected count is never negative, and it is 0 where the bounds are not static and non-negative |
| Unroll.TripCountIsIterations | compiler/src/iree/compiler/Codegen/Common/GPUDistributeSharedMemoryCopy.cpp:303-313 | for static non-negative bounds, the corrected count equals the number of values the induction variable takes |
| Unroll.SelectedProps | compiler/src/iree/compiler/Codegen/Common/GPUDistributeSharedMemoryCopy.cpp:318-321 | no collected loop is in the ignore set |
| Unroll.SelectedIff | compiler/src/iree/compiler/Codegen/Common/GPUDistributeSharedMemoryCopy.cpp:318-321 | a loop is collected exactly when it was walked and is not in the ignore set |
| Unroll.FullUnroll | compiler/src/iree/compiler/Codegen/Common/GPUDistributeSharedMemoryCopy.cpp:322-323 | each loop is unrolled by `numIteration` as written; for a loop that runs at least once that factor is its number of iterations, so the unroll is a full one, and for a loop whose bounds are not static and non-negative it is 0 |
| Unroll.RequestsCover | compiler/src/iree/compiler/Codegen/Common/GPUDistributeSharedMemoryCopy.cpp:316-325 | every walked loop outside the ignore set gets a full-unroll request, and no ignored loop gets one |
| Unroll.UnrollSharedMemoryLoops | compiler/src/iree/compiler/Codegen/Common/GPUDistributeSharedMemoryCopy.cpp:316-325 | the requests are the full unrolls of the collected loops in reverse walk order; they cover every loop that is not ignored and no loop that is |
| Markers.Apply | compiler/src/iree/compiler/Codegen/Common/GPUDistributeSharedMemoryCopy.cpp:149-152 | a stage rewrites only an op whose marker it matches and leaves its replacement marker there; an unmarked op is never touched; after a stage whose replacement it does not itself match, no op is left that the stage still matches |
| Markers.StagesSettle | compiler/src/iree/compiler/Codegen/Common/GPUDistributeSharedMemoryCopy.cpp:233-235 | none of the four filters (serial tiling, distribution, vectorization, thread-level tiling) matches the marker it leaves |
| Markers.ApplySettles | compiler/src/iree/compiler/Codegen/Common/GPUDistributeSharedMemoryCopy.cpp:149-152 | running a stage that settles a second time changes no marker, so the greedy driver reaches a fixed point after one rewrite of each op |
| Markers.AlignedPathResult | compiler/src/iree/compiler/Codegen/Common/GPUDistributeSharedMemoryCopy.cpp:241-245 | on the aligned path a copy into workgroup memory goes through tiling, distribution and vectorization and ends unmarked, while unrelated markers are left alone; the fallback path marks such a copy for vectorization |
| OpList.RedundantIff | compiler/src/iree/compiler/Codegen/Common/GPUDistributeSharedMemoryCopy.cpp:283-300 | a barrier is erased exactly when only barriers separate it from a marked op before it and from a marked copy after it |
| OpList.WholeRunErased | compiler/src/iree/compiler/Codegen/Common/GPUDistributeSharedMemoryCopy.cpp:288-296 | when one barrier of a run is erased, every barrier of that run is erased |
| OpList.KeptNonBarriers | compiler/src/iree/compiler/Codegen/Common/GPUDistributeSharedMemoryCopy.cpp:289-296 | up to every position, the ops that are not barriers survive in their order |
| OpList.OnlyBarriersErased | compiler/src/iree/compiler/Codegen/Common/GPUDistributeSharedMemoryCopy.cpp:283-300 | erasing the redundant barriers removes no op that is not a barrier and keeps the order of the rest |
| OpList.LastNonBarrierBefore | compiler/src/iree/compiler/Codegen/Common/GPUDistributeSharedMemoryCopy.cpp:286-294 | walking back over the barriers before a copy stops at the nearest op that is not a barrier, or at the start of the block |
| OpList.FuncBody.RemoveRedundantBarriers | compiler/src/iree/compiler/Codegen/Common/GPUDistributeSharedMemoryCopy.cpp:283-300 | the new body is the old one without its redundant barriers |
| OpList.CollectFreeAllocs | compiler/src/iree/compiler/Codegen/Common/GPUDistributeSharedMemoryCopy.cpp:271-274 | the walk collects the allocations without operands, in body order |
| OpList.FindFirstWithId | compiler/src/iree/compiler/Codegen/Common/GPUDistributeSharedMemoryCopy.cpp:275-277 | locates the op being moved: the first position holding that identity |
| OpList.FuncBody.HoistAlloc | compiler/src/iree/compiler/Codegen/Common/GPUDistributeSharedMemoryCopy.cpp:270-279 | the new body is the old one with its allocations without operands moved to the front, in reverse order |
| OpList.HoistedPermutation | compiler/src/iree/compiler/Codegen/Common/GPUDistributeSharedMemoryCopy.cpp:270-279 | hoisting neither adds nor drops an op |
| OpList.HoistedPrefix | compiler/src/iree/compiler/Codegen/Common/GPUDistributeSharedMemoryCopy.cpp:270-279 | after hoisting, the allocations without operands are exactly the leading ops of the body |
| OpList.HoistTwice | compiler/src/iree/compiler/Codegen/Common/GPUDistributeSharedMemoryCopy.cpp:275-278 | the hoisted allocations come out in reverse order, every other op keeps its order, and hoisting again restores the allocations' original order |
| Distribution.DistributedThreads | compiler/src/iree/compiler/Codegen/Common/GPUDistributeSharedMemoryCopy.cpp:203-236 | tiling a planned copy by its native shape gives at least one parallel loop, and the loops' thread counts multiply to the flat workgroup size |
| Distribution.EveryThreadInRange | compiler/src/iree/compiler/Codegen/Common/GPUDistributeSharedMemoryCopy.cpp:379-387 | on the aligned path every thread of the workgroup gets, for every parallel loop, a processor id below that loop's thread count |

## Left out

- The MLIR machinery is not modelled: IR construction, affine-apply folding, the rewrite pattern drivers, tiling itself and vectorization. The model keeps the values they compute.
- `loopUnrollByFactor` is not modelled. The model stops at the request to unroll a loop by a factor, so the conversion of that factor to an unsigned 64-bit value is not modelled either.
- `canPerformVectorAccessUsingAllThreads` (the `isAligned` test) is not part of this model. The aligned-path lemmas instead take as preconditions what they need.
- Distribution.DistributedThreads and Distribution.EveryThreadInRange: require `TilePlan.TilesDivide`, that every serial tile size divides its extent. Only then does every serial tile have the static shape the second tiling sees; a plan alone does not guarantee it (a 3x4 copy of 32-bit elements over 2 threads plans as 2x4, and its last tile is partial). What `isAligned` guarantees here is not part of this model.
- `getEntryPoint` and `getWorkgroupSize` read attributes of the IR and are not modelled. The model starts from a 3-D workgroup size, with missing dimensions taken as 1 as `resize(3, 1)` does.
- The early return when the body has no marked copy is not modelled.
- The fallback path's canonicalization patterns and `getGPUThreadIdsAndCounts` are not modelled beyond the tile sizes.
- The body is a single block of ops. Nested regions and walks into them are not modelled.
- The walk order of `removeRedundantBarriers` is modelled as a scan from the front of the block.
- Op identity is an integer id. OpList.FuncBody.HoistAlloc requires distinct ids, as distinct ops have in the IR.
- Only copies carry the workgroup-memory marker in the model. The source's `hasMarker` on the op before a run also accepts any other op carrying the marker.
- ProcIds.GetIds: recombination is stated only for a non-empty list of loops. The source never calls it with none, since the tiled copy always has its innermost loop.
- TilePlan.GetThreadTileSizes: requires a rank of at least 1. For a 0-d copy the source's unsigned `rank - 1` wraps to 4294967295, so the loop would push about 2^32 tile sizes; that case is not modelled. A 0-d copy cannot take the aligned path, whose planner needs a non-empty shape, so it would reach this fallback function.
- TilePlan.GetTileToDistributableSize: requires an element width of at most 128 bits, a non-empty shape and an innermost extent that is a whole number of vectors. These correspond to the source's assertions and to the `isAligned` test the caller runs first; the other assertion failures are modelled as a none result.
- Unroll.NumIteration: requires a step that is not 0 when the bounds are static and non-negative. `mlir::ceilDiv` divides by the step, and the zero step is not filtered out before it.
- `mlir::ceilDiv` is modelled from its documented definition, since the MLIR header that defines it is not part of this model.
- The tiling into parallel loops that linalg performs (loop 0 to extent, step tile size, one per tiled dimension) is modelled by `Distribution.TiledRanges`. It is not derived from linalg's code.
- 64-bit overflow of `int64_t` arithmetic is not modelled.
- Concurrency among threads at run time is not modelled.
- The ROCDL lowering-strategy file, which selects this pass, is not part of this model.

## Findings

| source | as written | input that shows it | evidently intended | confidence | as-written member | corrected member |
|---|---|---|---|---|---|---|
| compiler/src/iree/compiler/Codegen/Common/GPUDistributeSharedMemoryCopy.cpp:310-312 | `numIteration` returns `ceilDiv(ub - lb, step)` for static non-negative bounds, which is negative when the upper bound is a step or more below the lower bound; `UnrollSharedMemoryLoops` hands that count to `loopUnrollByFactor` as the factor (modelled by `Unroll.FullUnroll`) | lb = 4, ub = 0, step = 1 gives -4 | a loop that never runs has trip count 0 | low: such loops are not produced by the tiling stages; not executed | Unroll.NumIterationNegativeExample | Unroll.TripCountIsIterations |
