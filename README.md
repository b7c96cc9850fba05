# uni20 core, modelled and verified in Dafny

This project models the sequential core of the uni20 tensor library (C++) and proves properties of the model. Every source file it follows has one Dafny module:

- `StaticVectors` (static_vector.dfy): `static_vector<T, MaxSize>`, a fixed-capacity vector over an in-object buffer (src/common/static_vector.hpp).
- `Strides` (strides.dfy): `extent_strides` descriptors, both `coalesce_strides` overloads and `extract_strides`, which splits a contraction into its M, N and K loop groups (src/mdspan/strides.hpp).
- `IterationPlan` (iteration_plan.dfy): the single- and multi-operand plan builders and the `UnrollHelper` loop nest (src/mdspan/iteration_plan.hpp).
- `ApplyUnary` (apply_unary.dfy): the level-1 copy of the plan builders and `apply_unary_inplace` (src/level1/apply_unary.hpp).
- `ZipLayout` (zip_layout.dfy): extent merging, array concatenation and the strided and general zip mappings (src/mdspan/zip_layout.hpp). src/level1/zip_layout.hpp is an older copy of the same code and is modelled by the same module.
- `TensorLayout` (tensor_layout.dfy): row-major and column-major strides (src/tensor/layout.hpp).
- `Contract` (contract.dfy): the strided CPU contraction kernel `GemmLoop` and `contract_strided` (src/kernel/cpu/contract.hpp).
- `CpuMatrixOps`, `LinalgOps` and `ExpokitMatrix` (cpu_matrix_ops.dfy, linalg_ops.dfy, expokit_matrix.dfy): the three dense matrix back ends (src/linalg/backends/cpu/matrix_ops_cpu.hpp, src/linalg/ops/matrix_ops.hpp, src/expokit/matrix.hpp).
- `StringUtil` (string_util.dfy): `iequals` and `from_string` (src/common/string_util.hpp).
- `TerminalText` and `TerminalStyle` (terminal_text.dfy, terminal_style.dfy): the terminal helpers. These are string splitting, trimming, `${NAME}` expansion, shell quoting and toggles, plus the colour and attribute parsers, style combination and the ANSI escape sequence of a style (src/common/terminal.cpp, src/common/terminal.hpp).
- `NamedEnum` (named_enum.dfy): `NamedEnumeration` (src/common/namedenum.hpp).
- `TaskRegistry` (task_registry.dfy): the debug task registry, its dump-mode parser and the ordering of a task's epoch associations (src/async/task_registry_debug.cpp).
- `SharedStorage` and `StorageBuffer` (shared_storage.dfy, storage_buffer.dfy): the reference-counted and the in-place value slots (src/async/shared_storage.hpp, src/async/storage_buffer.hpp).
- `AsyncTaskPromise` (async_task_promise.dfy): the coroutine promise's owner count, first-exception slot, preferred NUMA node, intrusive exception-sink list and `AsyncTaskFactory` (src/async/async_task_promise.hpp).
- `NumaScheduler` (numa_scheduler.dfy): the NUMA scheduler's arenas, node lookup, round robin and per-arena counts (src/async/tbb_numa_scheduler.hpp).

Four modules support the others:

- `Wrappers` holds the Option and Result values through which thrown exceptions and `ERROR_IF` failures become explicit error results.
- `Concats` defines the concatenation of a counted family of sequences, which is how every loop nest is described.
- `LoopNests` defines what an iteration plan means: the offsets its loop nest visits.
- `Matrices` holds the matrix specification that the three matrix back ends are proved against.

Elements of tensors and matrices are mathematical integers. A C++ class whose fields change in place is a Dafny `class` whose methods state the new state. A loop is a `while` loop whose invariants tie it to a specification function, and the properties the library promises are proved as lemmas about those functions.

## Model

| member | source | states |
|---|---|---|
| StaticVectors.StaticVector.constructor | src/common/static_vector.hpp:28 | a default-constructed vector holds no elements |
| StaticVectors.StaticVector.Filled | src/common/static_vector.hpp:30-46 | `count` copies of the value (value-initialised when none is given); `count` may not exceed `MaxSize` |
| StaticVectors.StaticVector.FromList | src/common/static_vector.hpp:48-57 | the listed elements, in order; the list may not be longer than `MaxSize` |
| StaticVectors.StaticVector.Copy | src/common/static_vector.hpp:59-66 | a fresh vector with the same elements; the source is unchanged |
| StaticVectors.StaticVector.Move | src/common/static_vector.hpp:68-76 | the new vector takes the elements and the source is left empty |
| StaticVectors.StaticVector.CopyAssign | src/common/static_vector.hpp:81-94 | afterwards the target holds the source's elements; self-assignment changes nothing |
| StaticVectors.StaticVector.MoveAssign | src/common/static_vector.hpp:96-111 | the target takes the elements, the source is left empty; self-move changes nothing |
| StaticVectors.StaticVector.At | src/common/static_vector.hpp:127-136 | the element at `pos` when `pos < size()`, otherwise the `out_of_range` error |
| StaticVectors.StaticVector.Get | src/common/static_vector.hpp:138-147 | `operator[]` reads the element at an index below `size()` |
| StaticVectors.StaticVector.Set | src/common/static_vector.hpp:138-141 | writing through `operator[]` changes exactly that element |
| StaticVectors.StaticVector.Front | src/common/static_vector.hpp:149-158 | the first element of a non-empty vector |
| StaticVectors.StaticVector.Back | src/common/static_vector.hpp:160-169 | the last element of a non-empty vector |
| StaticVectors.StaticVector.Empty | src/common/static_vector.hpp:192 | true exactly when the vector has no elements |
| StaticVectors.StaticVector.Capacity | src/common/static_vector.hpp:194-195 | `capacity()` and `max_size()` are `MaxSize` and bound the size |
| StaticVectors.StaticVector.Clear | src/common/static_vector.hpp:198-205 | no elements remain |
| StaticVectors.StaticVector.PushBack | src/common/static_vector.hpp:207-226 | the value is appended, the size grows by one, the capacity must not be exceeded |
| StaticVectors.StaticVector.PopBack | src/common/static_vector.hpp:228-232 | the last element is removed from a non-empty vector |
| StaticVectors.StaticVector.Resize | src/common/static_vector.hpp:234-252 | the first `min(size, count)` elements are kept and new slots are value-initialised; `count <= MaxSize` |
| StaticVectors.StaticVector.Swap | src/common/static_vector.hpp:254-278 | the two vectors exchange their whole contents, whichever is longer |
| StaticVectors.StaticVector.SwapPrefix | src/common/static_vector.hpp:258-261 | the common prefix is exchanged element by element |
| StaticVectors.StaticVector.TakeTail | src/common/static_vector.hpp:262-277 | the longer vector's tail moves to the shorter one, which is then resized |
| Strides.MergeWithInner | src/mdspan/strides.hpp:61-68 | the merged dimension's extent is the product of the two extents and it takes the inner dimension's strides |
| Strides.CoalesceFromLength | src/mdspan/strides.hpp:88-96 | the coalescing scan never lengthens the plan and never rewrites an entry it has already closed |
| Strides.CoalesceFromProduct | src/mdspan/strides.hpp:88-96 | the coalescing scan keeps the number of index combinations (the product of the extents) |
| Strides.CoalesceShape | src/mdspan/strides.hpp:87-96 | coalescing is no longer than its input, empty exactly when the input is, and keeps the product of the extents |
| Strides.CoalesceArity | src/mdspan/strides.hpp:52-68 | every coalesced descriptor keeps one stride per operand |
| Strides.CoalesceKeepsGaps | src/mdspan/strides.hpp:52-59 | a 4 x 3 view with rows padded to 7 is not merged into one loop (the contiguity test rejects the gap) |
| Strides.Insert | src/mdspan/strides.hpp:83-85 | inserting into a plan sorted by the absolute first stride adds exactly that descriptor |
| Strides.SortDescCorrect | src/mdspan/strides.hpp:83-85 | the sort orders the descriptors by absolute first stride, largest first, and is a permutation of its input |
| Strides.SortDescArity | src/mdspan/strides.hpp:83-85 | sorting keeps one stride per operand in every descriptor |
| Strides.PermutationProduct | src/mdspan/strides.hpp:83-85 | reordering the descriptors does not change the number of index combinations |
| Strides.Descriptors2 | src/mdspan/strides.hpp:77-81 | one two-operand descriptor per dimension, as many as the rank |
| Strides.CoalesceStrides | src/mdspan/strides.hpp:71-99 | the three-operand `coalesce_strides` yields at most rank descriptors of two strides each, covering as many index combinations as the input dimensions |
| Strides.CoalesceInPlace | src/mdspan/strides.hpp:101-112 | the in-place scan leaves exactly the coalesced input in the vector (corrected: an empty vector stays empty) |
| Strides.CoalesceStep | src/mdspan/strides.hpp:104-110 | one step of the in-place scan keeps the invariant that the kept prefix and the unread suffix coalesce to the coalesced input |
| Strides.CoalesceInPlaceAsWritten | src/mdspan/strides.hpp:101-112 | as written, on a full vector: fails (`resize` beyond the capacity) exactly when the capacity `R` is 0, otherwise leaves the coalesced input |
| Strides.Free | src/mdspan/strides.hpp:139-157 | the uncontracted legs are axes below the rank |
| Strides.FreeCount | src/mdspan/strides.hpp:118-120 | with distinct contracted axes below the rank, `rank - N` legs are uncontracted |
| Strides.KEntries | src/mdspan/strides.hpp:129-137 | one K descriptor per contracted pair, with `A`'s and `B`'s strides |
| Strides.FreeEntries | src/mdspan/strides.hpp:139-157 | one descriptor per uncontracted leg, paired with consecutive axes of `C` |
| Strides.MEntries | src/mdspan/strides.hpp:139-148 | the M group holds `rank(A) - N` descriptors of two strides |
| Strides.NEntries | src/mdspan/strides.hpp:149-157 | the N group holds `rank(B) - N` descriptors of two strides |
| Strides.ExtractGroupsCases | src/mdspan/strides.hpp:129-157 | a contracted-extent mismatch reports the contraction error first, then an uncontracted mismatch reports its error, and otherwise the groups are returned |
| Strides.ExtractGroupsBounds | src/mdspan/strides.hpp:118-163 | the coalesced groups fit their capacities, keep two strides per descriptor and cover as many index combinations as their legs |
| Strides.ContractedLegs | src/mdspan/strides.hpp:126-137 | the K loop marks each contracted leg and appends its descriptor, failing exactly on an extent mismatch |
| Strides.UncontractedLegs | src/mdspan/strides.hpp:138-157 | an M or N loop appends a descriptor per uncontracted leg, failing exactly on an extent mismatch with `C` |
| Strides.FillGroups | src/mdspan/strides.hpp:126-157 | the three loops fill the groups with the uncoalesced entries or report the first error |
| Strides.CollectLegs | src/mdspan/strides.hpp:122-157 | fresh groups of capacities `rank(A) - N`, `rank(B) - N` and `N` hold the uncoalesced entries, or the error |
| Strides.ExtractStrides | src/mdspan/strides.hpp:114-164 | `extract_strides` returns the coalesced M, N and K groups of the reference definition, or exactly its error |
| Strides.ExtractGroupsExample | tests/mdspan/test_strides.cpp:202-234 | a 2x3x4 by 4x5x6 contraction over (2, 0) gives M = (6; 4, 30), N = (30; 1, 1), K = (4; 1, 30) |
| LoopNests.Shift | src/mdspan/iteration_plan.hpp:83-86 | moving a base `i` steps along a loop adds `i` times each operand's stride, one offset per operand |
| LoopNests.VisitsLength | src/mdspan/iteration_plan.hpp:176-256 | a loop nest runs its body once per index combination: as many visits as the product of the extents |
| LoopNests.VisitsWidth | src/mdspan/iteration_plan.hpp:263-362 | every visit carries one offset per operand |
| LoopNests.VisitsOfZeroExtent | src/mdspan/iteration_plan.hpp:89 | a loop of extent 0 anywhere in the nest means no visits at all |
| LoopNests.MergeVisits | src/mdspan/strides.hpp:48-68 | a merged pair of contiguous loops visits the same offsets, in the same order, as the pair |
| LoopNests.CoalesceVisits | src/mdspan/strides.hpp:87-96 | coalescing a plan keeps its visits exactly |
| LoopNests.SwapVisits | src/mdspan/iteration_plan.hpp:96-97 | interchanging two adjacent loops keeps the multiset of visits |
| LoopNests.InsertVisits | src/mdspan/iteration_plan.hpp:96-97 | moving a loop to its sorted place keeps the multiset of visits |
| LoopNests.SortVisits | src/mdspan/iteration_plan.hpp:96-97 | sorting the loops by stride keeps the multiset of visits |
| LoopNests.FlipFrontVisits | src/mdspan/iteration_plan.hpp:83-87 | running a loop backwards from its last iteration keeps the multiset of visits |
| LoopNests.FlipAllVisits | src/mdspan/iteration_plan.hpp:146-154 | flipping every loop whose operand-0 stride is negative, and moving the base by the collected correction, keeps the multiset of visits |
| IterationPlan.AsPlan | src/mdspan/iteration_plan.hpp:101-104 | a plan of `extent_stride` is a plan of one-operand descriptors, loop for loop |
| IterationPlan.ExtentStrideAgrees | src/mdspan/iteration_plan.hpp:29-53 | `extent_stride` merges exactly when the one-operand `extent_strides<1>` does, into the same loop, and the merged loop visits what the pair did |
| IterationPlan.Dims | src/mdspan/iteration_plan.hpp:78-81 | a view's loop nest has one one-operand loop per dimension |
| IterationPlan.DimsMulti | src/mdspan/iteration_plan.hpp:137-145 | the joint loop nest has one loop per dimension with one stride per view |
| IterationPlan.NonZeroNoZero | src/mdspan/iteration_plan.hpp:89 | skipping zero extents changes nothing when there are none |
| IterationPlan.PlannedVisits | src/mdspan/iteration_plan.hpp:68-107 | the flipped, sorted and merged plan, started from the collected offset, visits the same offsets as the view, as often |
| IterationPlan.PlannedShape | src/mdspan/iteration_plan.hpp:68-107 | a plan has no more loops than the view has dimensions, one stride per operand, operand 0 moving forward, and one iteration per element |
| IterationPlan.SortedFlipShape | src/mdspan/iteration_plan.hpp:83-97 | flipping and sorting keep the loops, their arity and their product, and make every operand-0 stride non-negative |
| IterationPlan.ToPlan | src/mdspan/iteration_plan.hpp:101-104 | the final copy loop turns each descriptor into the `extent_stride` with the same extent and stride |
| IterationPlan.SortAndMerge | src/mdspan/iteration_plan.hpp:96-104 | the plan is the sorted, coalesced descriptors |
| IterationPlan.MakeIterationPlanWithOffsetAsWritten | src/mdspan/iteration_plan.hpp:68-107 | as written: the plan of the non-empty loops and the offset collected from every negative stride, zero extents included |
| IterationPlan.FlipThenSkipLoops | src/mdspan/iteration_plan.hpp:78-92 | the dimension loop flips a negative stride into the offset before it skips a zero extent |
| IterationPlan.MakeIterationPlanWithOffset | src/mdspan/iteration_plan.hpp:68-107 | corrected: no plan exactly when the view has a zero extent, otherwise the flipped, sorted, merged plan and its offset |
| IterationPlan.FlipLoops | src/mdspan/iteration_plan.hpp:78-92 | the corrected dimension loop stops at a zero extent, otherwise flips every negative stride into the offset |
| IterationPlan.FlipJoint | src/mdspan/iteration_plan.hpp:146-154 | a joint loop flips exactly when operand 0's stride is negative, moving every operand's offset to the loop's last iteration |
| IterationPlan.MakeMultiIterationPlanWithOffsetAsWritten | src/mdspan/iteration_plan.hpp:115-168 | as written: the plan and offsets of the non-empty joint loops |
| IterationPlan.FlipNonZeroJoint | src/mdspan/iteration_plan.hpp:137-158 | the joint dimension loop skips a zero extent before it flips |
| IterationPlan.MakeMultiIterationPlanWithOffset | src/mdspan/iteration_plan.hpp:115-168 | corrected: no plan exactly when the common extents include 0, otherwise the joint plan and one offset per operand |
| IterationPlan.FlipJointLoops | src/mdspan/iteration_plan.hpp:137-158 | the corrected joint dimension loop stops at a zero extent, otherwise flips every joint loop and collects the offsets |
| IterationPlan.PlanCoversView | src/mdspan/iteration_plan.hpp:63-107 | an empty view has no visits; any other view's plan visits exactly the view's elements, each as often as the view's own loop nest |
| IterationPlan.MixedSignsNoMergeExample | tests/mdspan/test_iteration_plan.cpp:88-98 | extents {4, 3} with strides {-7, 1} give the unmerged plan (4, 7), (3, 1) |
| IterationPlan.MixedSignsNoMergeOffset | tests/mdspan/test_iteration_plan.cpp:88-98 | and the offset -21 |
| IterationPlan.MergeableNegativeStridesExample | tests/mdspan/test_iteration_plan.cpp:100-108 | extents {4, 5} with strides {-1, -4} merge into the plan (20, 1) |
| IterationPlan.MergeableNegativeStridesOffset | tests/mdspan/test_iteration_plan.cpp:100-108 | and the offset -19 |
| IterationPlan.InnerNegativeStrideExample | tests/mdspan/test_iteration_plan.cpp:60-68 | extent {10} with stride {-1} gives the plan (10, 1) and offset -9 |
| IterationPlan.ZeroExtentPlanAsWritten | src/mdspan/iteration_plan.hpp:78-94 | the empty view {0, 5} has no elements, but the builder as written plans (5, 1), which visits five offsets |
| IterationPlan.OffsetsVisits | src/mdspan/iteration_plan.hpp:176-256 | the offsets `UnrollHelper` walks are operand 0's offsets in the plan's loop nest |
| IterationPlan.ApplyAllCount | src/mdspan/iteration_plan.hpp:192-201 | each element ends with `op` applied as often as its offset occurs |
| IterationPlan.ApplyAllPermutation | src/mdspan/iteration_plan.hpp:176-256 | applying `op` along two orders of the same offsets gives the same result |
| IterationPlan.ApplyAllOnce | src/mdspan/iteration_plan.hpp:176-256 | with each offset visited once, every visited element gets `op` once and the others are untouched |
| IterationPlan.RunInnermost | src/mdspan/iteration_plan.hpp:184-203 | the innermost loop applies `op` at `off + i * stride` for each index, in order |
| IterationPlan.RunUnitStride | src/mdspan/iteration_plan.hpp:190-196 | the stride-1 innermost loop applies `op` at `off + i` |
| IterationPlan.RunStrided | src/mdspan/iteration_plan.hpp:197-202 | the strided innermost loop applies `op` at `off + i * stride` |
| IterationPlan.Run | src/mdspan/iteration_plan.hpp:205-256 | `run` and `run_dynamic` apply `op` along the plan's offsets in visiting order |
| ApplyUnary.CanMergeJoint | src/level1/apply_unary.hpp:62-67 | `multi_extent_stride` merges exactly when every operand's stride equals the inner stride times the inner extent |
| ApplyUnary.CoalesceFromStep | src/level1/apply_unary.hpp:124-134 | one step of the greedy merge into `merged.back()` is one step of the coalescing scan |
| ApplyUnary.MergeAdjacent | src/level1/apply_unary.hpp:122-134 | the greedy merge loop over `extent_stride` yields the coalesced plan |
| ApplyUnary.MergeAdjacentJoint | src/level1/apply_unary.hpp:204-217 | the greedy merge loop over joint loops yields the coalesced plan |
| ApplyUnary.SortAndMergeAdjacent | src/level1/apply_unary.hpp:119-134 | sort by stride, largest first, then merge: the coalesced sorted plan |
| ApplyUnary.SortAndMergeJoint | src/level1/apply_unary.hpp:201-217 | sort by operand 0's stride, then merge: the coalesced sorted joint plan |
| ApplyUnary.MakeIterationPlanWithOffsetAsWritten | src/level1/apply_unary.hpp:92-137 | as written: the flipped, sorted, merged plan of the non-empty loops, with the offset collected from every negative stride |
| ApplyUnary.MakeIterationPlanWithOffset | src/level1/apply_unary.hpp:92-137 | corrected: no plan exactly when the view has a zero extent, otherwise the flipped, sorted, merged plan and its offset |
| ApplyUnary.MakeMultiIterationPlanWithOffsetAsWritten | src/level1/apply_unary.hpp:151-220 | as written: operand 0's sign flips every operand, before the zero-extent skip, so a skipped loop still moves the offsets |
| ApplyUnary.FlipThenSkipJoint | src/level1/apply_unary.hpp:174-199 | the joint dimension loop flips each loop on operand 0's sign, then keeps it only when non-empty |
| ApplyUnary.MakeMultiIterationPlanWithOffset | src/level1/apply_unary.hpp:151-220 | corrected: no plan exactly when the common extents include 0, otherwise the joint plan and one offset per operand |
| ApplyUnary.ViewPositions | src/level1/apply_unary.hpp:325-339 | a view has as many element positions as the product of its extents |
| ApplyUnary.PlanPositions | src/level1/apply_unary.hpp:333-338 | the corrected plan's offsets, from the shifted origin, are the view's elements in some order |
| ApplyUnary.ApplyUnaryInplaceAsWritten | src/level1/apply_unary.hpp:325-339 | as written: nothing happens when the plan is empty, otherwise `op` is applied along the plan's offsets from the shifted origin |
| ApplyUnary.ApplyUnaryInplace | src/level1/apply_unary.hpp:241-339 | corrected: every element of the view gets `op` as often as the view maps an index to it; with distinct positions each element gets `op` exactly once and nothing else changes |
| ApplyUnary.RunPlan | src/level1/apply_unary.hpp:335-338 | running the corrected plan from the shifted origin applies `op` along the view's elements |
| ApplyUnary.ZeroExtentAppliesAsWritten | src/level1/apply_unary.hpp:102-117 | the empty view {0, 5} has no elements, yet `apply_unary_inplace` as written applies `op` at indices 0..4 |
| ApplyUnary.RankZeroSkippedAsWritten | src/level1/apply_unary.hpp:324-338 | a rank-0 view has one element, at its origin, yet the plan as written is empty and nothing is applied |
| ZipLayout.MergeExtent | src/mdspan/zip_layout.hpp:30-41 | two different static extents do not merge; otherwise the result is dynamic only when both are, and it is the static one when there is one |
| ZipLayout.MergePackSpec | src/mdspan/zip_layout.hpp:43-56 | the left fold merges exactly when the static extents of the pack agree, giving that extent, or `dynamic_extent` when all are dynamic |
| ZipLayout.MergeExtentCommutes | src/mdspan/zip_layout.hpp:30-41 | merging two extents does not depend on their order |
| ZipLayout.CommonExtents | src/mdspan/zip_layout.hpp:93-110 | `make` returns the first span's extents when every other span's extents equal them, and the `CHECK_EQUAL` failure otherwise |
| ZipLayout.ConcatArrays | src/mdspan/zip_layout.hpp:163-174 | `concat(a1, a2)` is `a1` followed by `a2` |
| ZipLayout.PrependArray | src/mdspan/zip_layout.hpp:176-186 | `concat(x, a)` puts `x` first |
| ZipLayout.AppendArray | src/mdspan/zip_layout.hpp:188-194 | `concat(a, x)` puts `x` last |
| ZipLayout.SpanOffsetOrigin | src/mdspan/zip_layout.hpp:369-376 | the zero index maps to offset 0 in every span |
| ZipLayout.SpanOffsetStep | src/mdspan/zip_layout.hpp:369-376 | one step along dimension `d` moves a span's offset by its stride in `d` |
| ZipLayout.ZipMapping.Strides | src/mdspan/zip_layout.hpp:278-282 | `strides()` is span 0's row, which every span shares when the layout is strided |
| ZipLayout.ZipMapping.Stride | src/mdspan/zip_layout.hpp:289-293 | `stride(r)` is the stride every span of a strided layout has in dimension `r` |
| ZipLayout.ZipMapping.Offsets | src/mdspan/zip_layout.hpp:359-385 | `operator()` gives one offset per span |
| ZipLayout.IsStrided | src/mdspan/zip_layout.hpp:262-273 | `is_strided()` holds exactly when every span has span 0's stride in every dimension |
| ZipLayout.StridedSameOffsets | src/mdspan/zip_layout.hpp:262-293 | in a strided zip layout every span maps an index to the same offset |
| ZipLayout.FromMappings | src/mdspan/zip_layout.hpp:304-310 | the constructor from child mappings keeps the extents and takes one stride row per child, in order |
| ZipLayout.Prepend | src/mdspan/zip_layout.hpp:321-328 | the prepending constructor keeps the other mapping's extents and adds one span |
| ZipLayout.Append | src/mdspan/zip_layout.hpp:330-337 | the appending constructor keeps the other mapping's extents and adds one span |
| ZipLayout.Merge | src/mdspan/zip_layout.hpp:339-347 | the merging constructor keeps the left extents and has the spans of both sides |
| ZipLayout.PrependKeepsOffsets | src/mdspan/zip_layout.hpp:321-328 | after prepending, the new span's offset comes first and every existing span's offset is unchanged |
| ZipLayout.AppendKeepsOffsets | src/mdspan/zip_layout.hpp:330-337 | after appending, every existing span's offset is unchanged and the new span's comes last |
| ZipLayout.MergeKeepsOffsets | src/mdspan/zip_layout.hpp:339-347 | merging keeps both sides' offsets, left spans first |
| ZipLayout.OffsetsExample | tests/level1/test_zip_layout.cpp:11-43 | strides {2} and {3} map index 2 to {4, 6} and are not strided; {5}, {5} are, with stride 5 |
| ZipLayout.PrependAppendExample | tests/level1/test_zip_layout.cpp:49-68 | prepending stride 100 to spans {1}, {10} maps index 2 to {200, 2, 20}; appending 1000 gives {2, 20, 2000} |
| ZipLayout.GeneralOffsets | src/mdspan/zip_layout.hpp:452-455 | `GeneralZipLayout::operator()` gives each child's own offset, one per child |
| ZipLayout.GeneralAgreesWithStrided | src/mdspan/zip_layout.hpp:396-455 | zipping strided children in a `GeneralZipLayout` maps every index as the `StridedZipLayout` of the same children does |
| ZipLayout.RequiredSpanSize | src/mdspan/zip_layout.hpp:435-445 | `required_span_size` is the largest child size, and 0 with no children |
| TensorLayout.LayoutRightStrides | src/tensor/layout.hpp:26-38 | the loop from the last dimension down stores, per dimension, the product of all later extents |
| TensorLayout.LayoutLeftStrides | src/tensor/layout.hpp:40-52 | the loop from the first dimension up stores, per dimension, the product of all earlier extents |
| TensorLayout.LayoutRight | src/tensor/layout.hpp:56-63 | `LayoutRight` is the `layout_stride` mapping of the extents with row-major strides |
| TensorLayout.LayoutLeft | src/tensor/layout.hpp:65-72 | `LayoutLeft` is the `layout_stride` mapping of the extents with column-major strides |
| TensorLayout.StridesRecurrences | src/tensor/layout.hpp:31-50 | the last row-major and the first column-major stride are 1, and each next stride is the previous one times the extent in between |
| TensorLayout.VolumeReverse | src/tensor/layout.hpp:26-52 | the number of elements does not depend on the order of the extents |
| TensorLayout.LeftIsReversedRight | src/tensor/layout.hpp:26-52 | column-major strides are the row-major strides of the reversed shape, reversed |
| TensorLayout.RightCoalesced | src/tensor/layout.hpp:26-38 | a non-empty row-major mapping coalesces into one unit-stride loop over its whole volume |
| TensorLayout.RightLayoutInOrder | src/tensor/layout.hpp:26-38 | the row-major mapping of any shape visits the buffer positions 0, 1, ..., volume - 1 in index order, each once |
| TensorLayout.TwoByThreeExample | tests/tensor/test_basic_tensor.cpp:37-45 | a 2 x 3 shape has column-major strides (1, 2) and row-major strides (3, 1) |
| Contract.SumProductsAppend | src/kernel/cpu/contract.hpp:105-122 | the accumulated sum of products over two runs of K steps is the sum of the two |
| Contract.UpdatesAppend | src/kernel/cpu/contract.hpp:54-97 | updating the cells of two runs of M x N steps is updating the first, then the second |
| Contract.NestIsVisits | src/kernel/cpu/contract.hpp:54-122 | the recursive loops visit exactly the offsets of the loop-nest semantics |
| Contract.GemmLoop.constructor | src/kernel/cpu/contract.hpp:30-33 | the engine keeps the three groups, `alpha` and `beta` |
| Contract.GemmLoop.Run | src/kernel/cpu/contract.hpp:40 | `run` overwrites every M x N cell of C in loop order with `beta * c + alpha * acc` and changes nothing else |
| Contract.GemmLoop.LoopM | src/kernel/cpu/contract.hpp:54-70 | M loop `dim` and everything inside it perform exactly the updates of its sub-nest, stepping A by `strides[0]` and C by `strides[1]` |
| Contract.GemmLoop.LoopN | src/kernel/cpu/contract.hpp:78-97 | N loop `dim` and everything inside it perform exactly the updates of its sub-nest, stepping B by `strides[0]` and C by `strides[1]` |
| Contract.GemmLoop.UpdateCell | src/kernel/cpu/contract.hpp:80-86 | the cell becomes `beta * c + alpha * acc`, with `acc` the sum over the K loops |
| Contract.GemmLoop.DotK | src/kernel/cpu/contract.hpp:105-122 | `dotK` adds `a * b` for every pair its K sub-nest visits, stepping A by `strides[0]` and B by `strides[1]` |
| Contract.ContractStrided | src/kernel/cpu/contract.hpp:143-151 | `contract_strided` performs exactly the cell updates of the whole nest on C and reads A and B only |
| Contract.UpdatesOnce | src/kernel/cpu/contract.hpp:80-86 | when no two cells share an element of C, every cell's element becomes `beta * old + alpha * acc` and the others keep their values |
| Contract.KernelResult | src/kernel/cpu/contract.hpp:35-122 | with distinct target cells, each becomes `beta * C + alpha * (the sum over the K loops of a * b)` and the rest of C is unchanged |
| Contract.DotDegenerate | src/kernel/cpu/contract.hpp:105-122 | with no K loop the accumulator is the single product `a * b`; with a K loop of extent 0 it is 0 |
| Contract.CellsCount | src/kernel/cpu/contract.hpp:54-97 | the M x N loops reach one cell per pair of M and N index tuples |
| Contract.ProductEntries | tests/kernel/test_contract.cpp:211-262 | the four row-times-column sums of [[1,2],[3,4]] and [[5,6],[7,8]] are 19, 22, 43 and 50 in every layout of A and B |
| Contract.MatMulAllLayouts | tests/kernel/test_contract.cpp:211-262 | for all 8 row/column-major combinations the kernel reads in bounds and leaves C = [[19,22],[43,50]] in C's own layout |
| Matrices.Identity | src/linalg/backends/cpu/matrix_ops_cpu.hpp:84-90 | the identity is an `n x n` matrix; `IdentityLeft` and `IdentityRight` prove it is the unit of the product |
| Matrices.Product | src/linalg/backends/cpu/matrix_ops_cpu.hpp:127-138 | the product of an `r x n` and an `n x c` matrix is `r x c`, entry `(i, j)` being row `i` of the left times column `j` of the right |
| Matrices.Power | src/linalg/ops/matrix_ops.hpp:296-327 | `mat^p` is square of the same order; `PowerAdd` proves the exponent law the square-and-multiply loop relies on |
| Matrices.SumSwap | src/linalg/backends/cpu/matrix_ops_cpu.hpp:127-138 | a finite double sum may be taken in either order (the step behind associativity of the product) |
| Matrices.DotAsSum | src/linalg/backends/cpu/matrix_ops_cpu.hpp:131-135 | the accumulated dot product is the sum over the common index of `lhs[i, k] * rhs[k, j]` |
| Matrices.DotUnit | src/linalg/backends/cpu/matrix_ops_cpu.hpp:84-90 | a dot product with a row or column of the identity picks one entry |
| Matrices.IdentityLeft | src/linalg/backends/cpu/matrix_ops_cpu.hpp:77-91 | `I * m == m` for every `n x c` matrix `m` |
| Matrices.IdentityRight | src/linalg/backends/cpu/matrix_ops_cpu.hpp:77-91 | `m * I == m` for every `r x n` matrix `m` |
| Matrices.ProductAssoc | src/linalg/backends/cpu/matrix_ops_cpu.hpp:104-139 | `(a * b) * c == a * (b * c)` for all conforming shapes |
| Matrices.PowerAdd | src/linalg/ops/matrix_ops.hpp:310-325 | `mat^p * mat^q == mat^(p + q)` |
| Matrices.PowerIsRepeatedProduct | tests/linalg/test_cpu_ops.cpp:86-110 | `mat^2 == mat * mat` and `mat^3 == (mat * mat) * mat` for every square matrix, as the test compares |
| Matrices.SquareMultiplyStep | src/linalg/ops/matrix_ops.hpp:311-325 | one round (multiply the base in on an odd exponent, halve it, square the base) keeps `rp + bp * exponent` fixed |
| Matrices.DifferenceUndoesSum | src/linalg/backends/cpu/matrix_ops_cpu.hpp:152-202 | `(a + b) - b == a` for matrices of one shape |
| Matrices.ScaledTwice | src/linalg/backends/cpu/matrix_ops_cpu.hpp:210-224 | scaling by `s` and then by `t` is scaling by `s * t` |
| Matrices.SwapRowsInvolution | src/linalg/backends/cpu/matrix_ops_cpu.hpp:257-277 | exchanging the same two rows twice restores the matrix |
| Matrices.ProductExample | tests/linalg/test_cpu_ops.cpp:30-60 | [[1,2,3],[4,5,6]] times [[7,8],[9,10],[11,12]] is [[58,64],[139,154]] |
| CpuMatrixOps.Entries | src/linalg/backends/cpu/matrix_ops_cpu.hpp:44-46 | the matrix a view spells out has the view's shape and entry `(i, j)` is `span[i, j]` |
| CpuMatrixOps.RequireSquare | src/linalg/backends/cpu/matrix_ops_cpu.hpp:24-31 | fails with `invalid_argument` exactly when rows and columns differ |
| CpuMatrixOps.RequireSameShape | src/linalg/backends/cpu/matrix_ops_cpu.hpp:33-42 | fails with `invalid_argument` exactly when rows or columns differ |
| CpuMatrixOps.MultiplyCheck | src/linalg/backends/cpu/matrix_ops_cpu.hpp:111-119 | passes exactly when the inner dimensions agree and `out` is `lhs.rows x rhs.cols`; the inner-dimension error comes first |
| CpuMatrixOps.ElementwiseCheck | src/linalg/backends/cpu/matrix_ops_cpu.hpp:154-155 | passes exactly when `lhs`, `rhs` and `out` have one shape |
| CpuMatrixOps.Copy | src/linalg/backends/cpu/matrix_ops_cpu.hpp:56-71 | on matching shapes `dst` holds the entries `src` had (also when they are one view); otherwise the error and `dst` unchanged |
| CpuMatrixOps.FillIdentity | src/linalg/backends/cpu/matrix_ops_cpu.hpp:77-91 | a square `out` becomes the identity; a non-square one gives the error and is unchanged |
| CpuMatrixOps.DotProduct | src/linalg/backends/cpu/matrix_ops_cpu.hpp:130-136 | the innermost loop returns row `i` of `lhs` times column `j` of `rhs` |
| CpuMatrixOps.Multiply | src/linalg/backends/cpu/matrix_ops_cpu.hpp:103-139 | after the two checks `out` holds `lhs * rhs`; on either error `out` is unchanged |
| CpuMatrixOps.MultiplyRow | src/linalg/backends/cpu/matrix_ops_cpu.hpp:127-138 | one pass of the outer loop writes row `i` of the product and leaves the other rows alone |
| CpuMatrixOps.Combine | src/linalg/backends/cpu/matrix_ops_cpu.hpp:161-168 | `out` holds the sum or difference of the entries `lhs` and `rhs` had, even when `out` is one of them |
| CpuMatrixOps.CombineRow | src/linalg/backends/cpu/matrix_ops_cpu.hpp:163-167 | one pass writes row `i` of `op(lhs, rhs)` and leaves the other rows and the rows still to be read alone |
| CpuMatrixOps.Add | src/linalg/backends/cpu/matrix_ops_cpu.hpp:151-169 | after the shape checks `out == lhs + rhs` (old entries when aliased); on an error `out` is unchanged |
| CpuMatrixOps.Subtract | src/linalg/backends/cpu/matrix_ops_cpu.hpp:180-202 | after the shape checks `out == lhs - rhs` (old entries when aliased); on an error `out` is unchanged |
| CpuMatrixOps.Scale | src/linalg/backends/cpu/matrix_ops_cpu.hpp:209-225 | after the shape check `out` holds every entry of `mat` times `scalar`; on an error `out` is unchanged |
| CpuMatrixOps.SwapRowsCheck | src/linalg/backends/cpu/matrix_ops_cpu.hpp:261-269 | fails with `out_of_range` exactly when the two indices differ and one is outside the rows |
| CpuMatrixOps.SwapRowsInPlace | src/linalg/backends/cpu/matrix_ops_cpu.hpp:257-277 | equal indices change nothing (even out of range); otherwise two rows in range are exchanged, and a bad index gives the error |
| CpuMatrixOps.SolveCheck | src/linalg/backends/cpu/matrix_ops_cpu.hpp:295-298 | passes exactly when `A` is square with as many rows as `B` |
| CpuMatrixOps.SelectPivot | src/linalg/backends/cpu/matrix_ops_cpu.hpp:308-325 | the pivot is the first row at or below `k` of largest magnitude in column `k`; the singular error exactly when that column is zero there |
| LinalgOps.Multiply | src/linalg/ops/matrix_ops.hpp:121-138 | a fresh `lhs.rows x rhs.cols` matrix holding `lhs * rhs`, or the error exactly when the inner dimensions differ |
| LinalgOps.Add | src/linalg/ops/matrix_ops.hpp:168-178 | a fresh matrix holding `lhs + rhs`, or the error exactly when the shapes differ |
| LinalgOps.Subtract | src/linalg/ops/matrix_ops.hpp:208-218 | a fresh matrix holding `lhs - rhs`, or the error exactly when the shapes differ |
| LinalgOps.Scale | src/linalg/ops/matrix_ops.hpp:248-257 | a fresh matrix of `mat`'s shape holding every entry times `scalar` |
| LinalgOps.MakeIdentity | src/linalg/ops/matrix_ops.hpp:458-465 | a fresh `order x order` identity |
| LinalgOps.PowerCheck | src/linalg/ops/matrix_ops.hpp:289-294 | passes exactly when `mat` and `out` are square of one order; the three errors come in the source's order |
| LinalgOps.MatrixPowerInto | src/linalg/ops/matrix_ops.hpp:285-328 | after the checks `out` holds `mat^power` (the identity for power 0), computed from `mat`'s old entries; on an error `out` is unchanged |
| LinalgOps.SquareAndMultiply | src/linalg/ops/matrix_ops.hpp:311-325 | from `result = I` and `base = mat` the loop leaves `result = mat^power` |
| LinalgOps.PowerRound | src/linalg/ops/matrix_ops.hpp:313-324 | one round halves the exponent and keeps `result = mat^rp`, `base = mat^bp` with `rp + bp * exponent` fixed |
| LinalgOps.MultiplyPowers | src/linalg/ops/matrix_ops.hpp:315-316 | `multiply_into` then `copy` turns `mat^p` into `mat^(p + q)`, also when the factor is the target itself |
| LinalgOps.MatrixPower | src/linalg/ops/matrix_ops.hpp:344-353 | a fresh matrix holding `mat^power`, or the error exactly when `mat` is not square |
| LinalgOps.SolveArgsCheck | src/linalg/ops/matrix_ops.hpp:402-410 | passes exactly when `A` is square and `B` has as many rows; the square check comes first |
| LinalgOps.SolveWorkingCopies | src/linalg/ops/matrix_ops.hpp:402-420 | after the checks, fresh distinct clones of `A` and `B` that satisfy the back end's own check, the caller's matrices untouched |
| ExpokitMatrix.IndexBound | src/expokit/matrix.hpp:44-52 | row `i`, column `j` of an `r x c` row-major matrix lies inside its `r * c` entries |
| ExpokitMatrix.IndexInjective | src/expokit/matrix.hpp:44-52 | two cells share an offset `row * cols + col` exactly when they are the same cell |
| ExpokitMatrix.EntriesOf | src/expokit/matrix.hpp:44-52 | the flat storage spells out an `r x c` matrix |
| ExpokitMatrix.EntriesOfUpdate | src/expokit/matrix.hpp:44-47 | writing one offset changes exactly the matching cell |
| ExpokitMatrix.EntriesOfPointwise | src/expokit/matrix.hpp:123-169 | entry-by-entry sums, differences and multiples of the flat storage are the matrix sum, difference and multiple |
| ExpokitMatrix.EntriesOfZeros | src/expokit/matrix.hpp:22-27 | value-initialised storage spells out the zero matrix |
| ExpokitMatrix.Matrix.constructor | src/expokit/matrix.hpp:22-27 | a new `rows x cols` matrix holds zeros |
| ExpokitMatrix.Matrix.At | src/expokit/matrix.hpp:49-52 | the read accessor returns entry `(row, col)` |
| ExpokitMatrix.Matrix.Set | src/expokit/matrix.hpp:44-47 | writing through the accessor changes entry `(row, col)` and no other |
| ExpokitMatrix.Matrix.Swap | src/expokit/matrix.hpp:64-69 | the two matrices exchange dimensions and storage |
| ExpokitMatrix.Clone | src/expokit/matrix.hpp:207 | a fresh matrix with the same dimensions and entries |
| ExpokitMatrix.MakeIdentity | src/expokit/matrix.hpp:81-91 | a fresh `n x n` identity |
| ExpokitMatrix.DotProduct | src/expokit/matrix.hpp:108-111 | the innermost loop returns row `i` of `lhs` times column `j` of `rhs` |
| ExpokitMatrix.Multiply | src/expokit/matrix.hpp:98-116 | a fresh `lhs.rows x rhs.cols` matrix holding `lhs * rhs`, or the error exactly when the inner dimensions differ |
| ExpokitMatrix.MultiplyRow | src/expokit/matrix.hpp:106-114 | one pass of the outer loop writes row `i` of the product and leaves the other rows alone |
| ExpokitMatrix.Add | src/expokit/matrix.hpp:123-135 | a fresh matrix holding `lhs + rhs`, or the error exactly when the shapes differ |
| ExpokitMatrix.Subtract | src/expokit/matrix.hpp:142-154 | a fresh matrix holding `lhs - rhs`, or the error exactly when the shapes differ |
| ExpokitMatrix.Scale | src/expokit/matrix.hpp:161-169 | a fresh matrix of `mat`'s shape holding every entry times `scalar` |
| ExpokitMatrix.MatrixPower | src/expokit/matrix.hpp:195-220 | `mat^power` (the identity for power 0), or the error exactly when `mat` is not square |
| ExpokitMatrix.PowerRound | src/expokit/matrix.hpp:209-217 | one round halves the exponent and keeps `result = mat^rp`, `base = mat^bp` with `rp + bp * exponent` fixed |
| ExpokitMatrix.SwapRowsInPlace | src/expokit/matrix.hpp:239-248 | equal indices change nothing; otherwise the two rows are exchanged and the rest kept |
| ExpokitMatrix.SolveCheck | src/expokit/matrix.hpp:259-261 | passes exactly when `A` is square with as many rows as `B` |
| ExpokitMatrix.SelectPivot | src/expokit/matrix.hpp:266-279 | the pivot is the first row at or below `k` of largest magnitude in column `k`; the singular error exactly when that column is zero there |
| StringUtil.ToLowerChar | src/common/string_util.hpp:54-56 | `tolower` maps `'A'..'Z'` to the matching lower-case letter and leaves every other character alone |
| StringUtil.ToLower | src/common/terminal.cpp:150-154 | lowering keeps the length and lowers every character |
| StringUtil.ToLowerIdempotent | src/common/terminal.cpp:150-154 | lowering twice is lowering once |
| StringUtil.IEqualsIsLowerEquality | src/common/string_util.hpp:52-57 | `iequals` holds exactly when the lowered texts are equal, so it is reflexive, symmetric and transitive |
| StringUtil.IEqualsExample | tests/common/test_string_util.cpp:28-32 | "Hello" matches "heLLo" and not "World" |
| StringUtil.DigitRun | src/common/string_util.hpp:85 | `from_chars` reads the longest run of digits that starts the text and stops at the first non-digit |
| StringUtil.NatToStringReadsBack | src/common/string_util.hpp:82-88 | the decimal spelling of `n` is all digits and reads back as `n` |
| StringUtil.DigitRunOfDigits | src/common/string_util.hpp:85 | a run of digits followed by the end or a non-digit is read whole |
| StringUtil.FromStringInt | src/common/string_util.hpp:82-88 | `from_string<int>` gives a value within `int`, the `runtime_error` on failure, and fails on empty text and text not starting with a digit or '-' |
| StringUtil.FromStringIntReadsBack | src/common/string_util.hpp:82-88 | every `int`, printed in decimal and followed by anything not a digit, converts back to itself |
| StringUtil.FromStringIntExamples | tests/common/test_string_util.cpp:34-40 | "42" converts to 42 and "abc" fails |
| StringUtil.FromStringText | src/common/string_util.hpp:89-92 | `from_string<std::string>` returns the text itself |
| TerminalText.FindFrom | src/common/terminal.cpp:93 | the search from `start` stops at the first occurrence of the character, or at the end when there is none |
| TerminalText.FindFirst | src/common/terminal.cpp:93 | the search returns the position of the first occurrence |
| TerminalText.FindNone | src/common/terminal.cpp:94 | with no occurrence the search returns `npos` (the end) |
| TerminalText.SplitCount | src/common/terminal.cpp:87-103 | splitting gives one more piece than there are delimiters |
| TerminalText.SplitPiecesFree | src/common/terminal.cpp:87-103 | no piece holds the delimiter |
| TerminalText.JoinOfSplit | src/common/terminal.cpp:87-103 | joining the pieces with the delimiter gives the text back |
| TerminalText.JoinSplit | src/common/terminal.cpp:87-103 | splitting delimiter-free pieces joined by the delimiter gives the pieces back |
| TerminalText.SplitAtFind | src/common/terminal.cpp:93-100 | where `find` stops, the rest is one piece (at the end) or a piece followed by the split after the delimiter |
| TerminalText.SplitPiece | src/common/terminal.cpp:93-100 | the first piece from `start` runs up to the next delimiter or the end |
| TerminalText.SplitString | src/common/terminal.cpp:87-103 | the loop of repeated `find` calls returns exactly the pieces of `Split` |
| TerminalText.SplitExamples | src/common/terminal.cpp:87-103 | "a;b" splits into "a" and "b"; ";;" into three empty pieces; "" into one empty piece |
| TerminalText.NextLevel | src/common/terminal.cpp:116-127 | an opener raises the nesting level, a closer lowers it but never below 0, any other character keeps it |
| TerminalText.SplitTopLevel | src/common/terminal.cpp:107-147 | the loop over the characters returns exactly the tokens of `TopLevel` |
| TerminalText.TopLevelFlat | src/common/terminal.cpp:107-147 | without brackets the top-level split is the plain split without its final empty piece |
| TerminalText.TopLevelJoin | src/common/terminal.cpp:129-145 | no tokens exactly for empty input; joining the tokens gives the input back, or the input less one trailing delimiter |
| TerminalText.NestedNeverSplits | src/common/terminal.cpp:130-138 | inside brackets nothing is split until a closing bracket appears |
| TerminalText.TopLevelSingle | src/common/terminal.cpp:142-145 | a token without delimiter or bracket comes back whole, and nothing comes back for an empty one |
| TerminalText.TopLevelHead | src/common/terminal.cpp:130-134 | a delimiter at level 0 ends the token before it |
| TerminalText.TopLevelNestedExample | src/common/terminal.cpp:105-147 | "(,),x" splits on ',' into "(,)" and "x" |
| TerminalText.TopLevelCloserExample | src/common/terminal.cpp:121-127 | an unmatched ')' is kept as text: "),x" gives ")" and "x" |
| TerminalText.TopLevelTrailingExample | src/common/terminal.cpp:142-145 | "a," gives the single token "a": no empty last token |
| TerminalText.FirstNonSpace | src/common/terminal.cpp:160 | `find_first_not_of`: every character before it is blank and the one there is not |
| TerminalText.EndNonSpace | src/common/terminal.cpp:162 | one past `find_last_not_of`: every character after it is blank and the one before it is not |
| TerminalText.Trim | src/common/terminal.cpp:157-164 | the result is empty exactly for an all-blank text, and otherwise neither starts nor ends with a blank |
| TerminalText.TrimOfPadded | src/common/terminal.cpp:157-164 | trimming blank padding from either side of a text that neither starts nor ends with a blank gives that text |
| TerminalText.TrimIdempotent | src/common/terminal.cpp:157-164 | trimming twice is trimming once |
| TerminalText.DefinedReference | src/common/terminal.cpp:607-621 | a `$` opens a reference exactly when `{` follows, a `}` closes it later and the name between is set |
| TerminalText.ReadReference | src/common/terminal.cpp:607-622 | the check after a `$` yields the variable's value exactly when the reference is defined, and where to resume |
| TerminalText.ExpandAt | src/common/terminal.cpp:601-625 | one round of the loop produces the expansion of the text from the `$` up to the next `$` |
| TerminalText.ExpandEnvironment | src/common/terminal.cpp:596-628 | the jump-from-`$`-to-`$` loop returns exactly the expansion `Expand` |
| TerminalText.ExpandNoDollar | src/common/terminal.cpp:596-628 | text without `$` comes back unchanged |
| TerminalText.ExpandEmptyEnvironment | src/common/terminal.cpp:614-615 | with no variable set every text comes back unchanged |
| TerminalText.ExpandReference | src/common/terminal.cpp:607-621 | `${NAME}` is replaced by the value when NAME is set and kept as written otherwise |
| TerminalText.ExpandExample | src/common/terminal.cpp:596-628 | "${HOME}/x" with HOME = "/root" expands to "/root/x" |
| TerminalText.EscapeConcat | src/common/terminal.hpp:42-56 | escaping works character by character, so it distributes over concatenation |
| TerminalText.UnescapeEscape | src/common/terminal.hpp:42-56 | escaping loses nothing: the shell's reading of the escaped text is the original |
| TerminalText.QuoteShell | src/common/terminal.hpp:29-60 | `quote_shell` returns exactly `Quoted(s)` |
| TerminalText.QuotedProperties | src/common/terminal.hpp:29-60 | the text comes back unchanged exactly when it has no special character; otherwise, inside the quotes, the shell reads back the original |
| TerminalText.EscapeUnchanged | src/common/terminal.hpp:44-55 | text without a backslash or a double quote escapes to itself |
| TerminalText.QuotedOneSpecial | tests/common/test_terminal_utils.cpp:48-58 | a text whose only special character is one `c` is quoted as `"`, the text with `c` escaped, and `"` |
| TerminalText.Cmdline | src/common/terminal.hpp:63-70 | `cmdline` returns the quoted arguments separated by single spaces, and the empty text for no arguments |
| TerminalText.CmdlineSplits | src/common/terminal.hpp:63-70 | arguments that need no quoting are recovered by splitting the command line on spaces |
| TerminalText.YesNoDisjoint | src/common/terminal.hpp:213-220 | no text is both a yes word and a no word, so the order of the two checks does not matter |
| TerminalText.Toggle | src/common/terminal.hpp:207-225 | a no word gives false, a yes word true (case-insensitively), and anything else, the empty text included, the default |
| TerminalText.ToggleExamples | tests/common/test_terminal_utils.cpp:95-119 | yes/true/1 give true, no/false/0 false, and "" and "maybe" the default |
| TerminalText.GetenvOrDefaultInt | src/common/terminal.hpp:95-109 | the converted value when the variable is set and converts, and the default otherwise |
| TerminalText.GetenvReadsBack | src/common/terminal.hpp:95-109 | a variable holding the decimal spelling of an `int` yields that `int` |
| TerminalText.GetenvOrDefaultExamples | tests/common/test_terminal_utils.cpp:71-93 | "42" gives 42, an unset variable the default 5, "not-a-number" the default 9 |
| TerminalText.GetenvOrDefaultText | src/common/terminal.hpp:111-115 | the variable's text when it is set, and the default otherwise |
| TerminalStyle.BgCode | src/common/terminal.hpp:139-159 | every `BackgroundColor` value is ten above the `ForegroundColor` value of the same colour |
| TerminalStyle.FgFromCode | src/common/terminal.hpp:118-137 | a code read as a colour is that colour's `ForegroundColor` value |
| TerminalStyle.FgCodeReadsBack | src/common/terminal.hpp:118-159 | every foreground code reads back as its colour, and no background code is a foreground code |
| TerminalStyle.NamedColorOf | src/common/terminal.cpp:170-187 | a name found by the chain of comparisons is that colour's name |
| TerminalStyle.NamedColorOfName | src/common/terminal.cpp:170-187 | every colour's name is found as that colour: no two names coincide |
| TerminalStyle.ColorNameLower | src/common/terminal.cpp:169-186 | the names are compared in lower case, and every name is its own lower case |
| TerminalStyle.ParseNamedColorIff | src/common/terminal.cpp:167-213 | a token names colour `c` exactly when, trimmed, it equals `c`'s name ignoring case (both colour parsers) |
| TerminalStyle.ParseColorAttribute | src/common/terminal.cpp:216-223 | an attribute found is the one whose name is the trimmed, lowered token |
| TerminalStyle.ParseColorAttributeIff | src/common/terminal.cpp:216-223 | a token names attribute `a` exactly when, trimmed, it equals `a`'s name ignoring case |
| TerminalStyle.AttrBitsDistinct | src/common/terminal.hpp:170-176 | Bold, Dim and Underline are distinct single bits |
| TerminalStyle.CombineAssociative | src/common/terminal.hpp:260-267 | combining styles with the style `or` operator is associative |
| TerminalStyle.CombineIdentity | src/common/terminal.hpp:260-267 | the default style is a unit of the style `or` operator on both sides, and combining a style with itself gives it back |
| TerminalStyle.CombineTakesRight | src/common/terminal.hpp:260-267 | an attribute is set in the combination of `a` and `b` exactly when it is set in `a` or `b`; a colour of `b` wins, otherwise `a`'s stays |
| TerminalStyle.ColorGroup | src/common/terminal.cpp:43-78 | each colour contributes at least one number: its enumerator value, or `38;2;r;g;b` / `48;2;r;g;b` |
| TerminalStyle.ColorText | src/common/terminal.hpp:312-315 | `color_text` is the style's sequence, then the text, then the reset `ESC[0m` |
| TerminalStyle.ColorIf | src/common/terminal.hpp:317-320 | `color_if` is `color_text` when the flag holds and the bare text otherwise |
| TerminalStyle.ReadFields | src/common/terminal.cpp:80-83 | reading the parameters of a sequence yields one number per field |
| TerminalStyle.JoinGroups | src/common/terminal.cpp:80-83 | joining the entries of `codes` with `;` is joining all their numbers with `;` |
| TerminalStyle.ReadTexts | src/common/terminal.cpp:37-78 | non-negative numbers print without `;` and read back as themselves |
| TerminalStyle.ReadAttrGroups | src/common/terminal.cpp:35-40 | a terminal applying the attribute codes 1, 2 and 4 in that order sets exactly the style's attributes |
| TerminalStyle.ReadColorGroup | src/common/terminal.cpp:43-78 | a terminal applying one colour code selects exactly that colour for its target |
| TerminalStyle.ReadCodesOfStyle | src/common/terminal.cpp:29-84 | the numbers of a well-formed style's codes, applied to the plain style, give the style back |
| TerminalStyle.ToStringShape | src/common/terminal.cpp:80-83 | `to_string` is `ESC [`, the codes joined with `;`, then `m` |
| TerminalStyle.ReadCodeFields | src/common/terminal.cpp:80-83 | the parameters of a non-empty sequence are exactly the numbers of the codes |
| TerminalStyle.SgrRoundTrip | src/common/terminal.cpp:29-84 | a terminal reading the sequence of a well-formed style shows exactly that style: `to_string` loses nothing |
| TerminalStyle.LeadingSpace | src/common/terminal.cpp:249 | `stoi` skips exactly the leading C white space |
| TerminalStyle.Stoi | src/common/terminal.cpp:249 | `std::stoi` in base 10 or 16 succeeds only with a value that fits in `int` |
| TerminalStyle.ConvertDigits | src/common/terminal.cpp:249 | the leading digits with the sign applied convert only when the value fits in `int` |
| TerminalStyle.StoiReadsBack | src/common/terminal.cpp:249 | a decimal number reads back as itself, whatever non-digit text follows it |
| TerminalStyle.ParseRGB | src/common/terminal.cpp:225-289 | a colour `parseRGBColor` accepts has three components in [0, 255] |
| TerminalStyle.NextPiece | src/common/terminal.cpp:239-261 | the piece up to the next comma, or the end, is the next piece of the comma split |
| TerminalStyle.ReadPiece | src/common/terminal.cpp:243-256 | a piece is trimmed and, unless blank, converted by `stoi`; a failed conversion marks it invalid |
| TerminalStyle.CollectRGBValues | src/common/terminal.cpp:232-278 | the comma loop returns the values of the comma-separated pieces in order, or nothing when a piece fails |
| TerminalStyle.ParseRGBColor | src/common/terminal.cpp:225-289 | the prefix and suffix checks, the comma loop and the count and range checks together compute exactly `ParseRGB` |
| TerminalStyle.AllInByteRange | src/common/terminal.cpp:283-286 | the range loop accepts exactly when every value lies in [0, 255] |
| TerminalStyle.NumberPiece | src/common/terminal.cpp:243-256 | a decimal number is its own trimmed piece and converts back to itself |
| TerminalStyle.CollectValuesOnly | src/common/terminal.cpp:232-278 | pieces that all hold values collect to those values, after those already collected |
| TerminalStyle.NumbersRead | src/common/terminal.cpp:232-278 | decimal numbers joined with commas read back as those numbers |
| TerminalStyle.ParseRGBText | src/common/terminal.cpp:225-289 | every colour written as `rgb(r,g,b)` parses back to itself |
| TerminalStyle.HexDigitsValue | src/common/terminal.cpp:312-328 | one or two hexadecimal digits have the positional value |
| TerminalStyle.StoiSignedDigit | src/common/terminal.cpp:312 | `stoi` in base 16 accepts a minus sign before a digit |
| TerminalStyle.HexSignAsWritten | src/common/terminal.cpp:291-339 | `#-d....` passes the parser as written with a negative red component |
| TerminalStyle.HexSignRejected | src/common/terminal.cpp:291-339 | the corrected parser rejects every `#-d....` token |
| TerminalStyle.HexPair | src/common/terminal.cpp:326-328 | a pair of hexadecimal digits has a value in [0, 255] |
| TerminalStyle.ParseHexColor | src/common/terminal.cpp:291-339 | every colour the corrected `parseHexColor` returns has components in [0, 255] |
| TerminalStyle.StoiHexPair | src/common/terminal.cpp:326-328 | on two hexadecimal digits `stoi` in base 16 agrees with `HexPair` |
| TerminalStyle.ParseHexAgrees | src/common/terminal.cpp:291-339 | where every character after `#` is a hexadecimal digit, the parser as written and the corrected one agree |
| TerminalStyle.ParseHexText | src/common/terminal.cpp:322-330 | every colour written as `#RRGGBB` parses back to itself |
| TerminalStyle.ParseHexShort | src/common/terminal.cpp:303-316 | `#RGB` doubles each digit, giving components `17 * digit` |
| TerminalStyle.ParseTokenColor | src/common/terminal.cpp:384-431 | the colour branches send `rgb(` to `parseRGBColor`, `#` to `parseHexColor` and anything else to the colour names |
| TerminalStyle.ParseTokenPiece | src/common/terminal.cpp:384-439 | a token adds a colour for the target when it names one, otherwise an attribute when it names one, otherwise nothing |
| TerminalStyle.SplitTokenTarget | src/common/terminal.cpp:374-381 | a colon in a token splits off a target of its own, trimmed and lowered; the token after it is trimmed |
| TerminalStyle.ApplyToken | src/common/terminal.cpp:368-440 | one token step ORs in exactly what the token names, skipping blank tokens |
| TerminalStyle.ApplyTokenList | src/common/terminal.cpp:368-440 | the token loop applies the tokens in order |
| TerminalStyle.ApplyOnePart | src/common/terminal.cpp:347-441 | one part step trims, skips a blank part, reads the target before a colon and applies its `;` tokens |
| TerminalStyle.ParseTerminalStyle | src/common/terminal.cpp:341-443 | the parser returns exactly `StyleOf`: the top-level comma parts applied in order to the plain style |
| TerminalStyle.TokenColorAgrees | src/common/terminal.cpp:384-431 | the colour readings with the hexadecimal parser as written and the corrected one agree off `#` tokens with a non-digit |
| TerminalStyle.StoiStopsAtNonDigit | src/common/terminal.cpp:312 | `stoi("fg", nullptr, 16)` reads the `f` and stops at the `g` |
| TerminalStyle.HexPartialAsWritten | src/common/terminal.cpp:322-330 | "#fg0000" reads as red 15 in the parser as written and is rejected by the corrected one |
| TerminalStyle.HexSignWord | src/common/terminal.cpp:394-437 | a token `#-d....` names no colour and no attribute |
| TerminalStyle.StyleOfHexSign | src/common/terminal.cpp:341-443 | the style string `#-d....` sets a negative red foreground as written and the plain style with the correction |
| TerminalStyle.StyleOfHexSignExample | src/common/terminal.cpp:291-339 | "#-10000" gives red -1 as written and the plain style with the correction |
| TerminalStyle.ApplyPartsWellformed | src/common/terminal.cpp:341-443 | the part loop keeps every colour component in [0, 255] |
| TerminalStyle.ParsedStyleReadsBack | src/common/terminal.cpp:341-443 | every style string parses to a style whose escape sequence a terminal reads back as that style |
| TerminalStyle.ApplyTokensFromPlain | src/common/terminal.cpp:368-440 | the token loop started from `acc` gives `acc` combined with the result of the loop started from the plain style |
| TerminalStyle.ApplyPartsFromPlain | src/common/terminal.cpp:347-441 | the part loop started from `acc` gives `acc` combined with the result of the loop started from the plain style |
| TerminalStyle.ApplyPartsAppend | src/common/terminal.cpp:347-441 | applying two runs of parts is applying the first, then the second |
| TerminalStyle.StyleOfComma | src/common/terminal.cpp:344-441 | the style of `a,b` is the style of `a` combined with the style of `b` |
| TerminalStyle.StyleOfWord | src/common/terminal.cpp:352-366 | a word on its own is one token for the default target `fg` |
| TerminalStyle.StyleOfTargetWord | src/common/terminal.cpp:354-366 | `target:word` is one token for the target in lower case |
| TerminalStyle.NamedToken | src/common/terminal.cpp:402-431 | a lower-case colour name is that colour for either target |
| TerminalStyle.StyleOfColorName | src/common/terminal.cpp:341-443 | a colour name sets the foreground, and `bg:` before it the background |
| TerminalStyle.AttrNameNotColor | src/common/terminal.cpp:167-223 | no attribute name is a colour name |
| TerminalStyle.StyleOfAttrName | src/common/terminal.cpp:433-439 | an attribute name sets that attribute and nothing else (a lone attribute is applied) |
| TerminalStyle.ColorWordToken | src/common/terminal.cpp:384-431 | a word equal to a colour name ignoring case is that colour for `fg` or `bg` |
| TerminalStyle.AttrWordToken | src/common/terminal.cpp:433-439 | a word equal to an attribute name ignoring case is that attribute, whatever the target |
| TerminalStyle.InnerTargetOverrides | src/common/terminal.cpp:374-381 | an inner `bg:` before a colour name sets the background, even in a part whose target is the foreground |
| TerminalStyle.TwoTokens | src/common/terminal.cpp:367-369 | two `;`-separated tokens are applied in order |
| TerminalStyle.StyleOfColorAttribute | src/common/terminal.hpp:289-309 | every part `colour;attribute` sets that foreground and that attribute |
| TerminalStyle.StyleOfTargetColorAttribute | src/common/terminal.hpp:289-309 | every part `fg:colour;attribute` or `bg:colour;attribute`, in any case, sets that colour for that target and the attribute |
| TerminalStyle.StyleOfIgnoresCase | src/common/terminal.cpp:169-221 | a word of letters means the same in any case |
| TerminalStyle.StyleOfPadded | src/common/terminal.cpp:349 | padding before a part does not change its style |
| TerminalStyle.StyleOfColorInnerBg | src/common/terminal.cpp:368-440 | `t:colour;bg:colour'` sets the first colour for `t` and the second as background |
| TerminalStyle.RedBoldExample | tests/common/test_terminal_color.cpp:16-23 | "Red;Bold" sets red and bold, printed "ESC[1;31m" |
| TerminalStyle.BlackOnWhiteExample | tests/common/test_terminal_color.cpp:26-32 | "fg:Black;bg:White" sets black on white, printed "ESC[30;107m" |
| TerminalStyle.MixedTargetsExample | tests/common/test_terminal_color.cpp:35-45 | "fg:Blue;Bold, bg:Yellow;Underline" combines both parts, printed "ESC[1;4;34;43m" |
| TerminalStyle.ColorAttributeTokens | src/common/terminal.cpp:366-439 | the tokens `colour;attribute`, each a word naming a colour or attribute in any case, set that colour for the part's target and add the attribute |
| TerminalStyle.ColorInnerBgTokens | src/common/terminal.cpp:373-431 | in `colour;bg:colour` the inner `bg:` header sends the second colour to the background while the first goes to the part's target |
| TerminalStyle.TokenIgnoresCase | src/common/terminal.cpp:402-408 | two letter words equal ignoring case parse to the same token |
| NamedEnum.ListOfLength | src/common/namedenum.hpp:87-98 | the list holds every name once plus ", " between each neighbouring pair |
| NamedEnum.ListOfFront | src/common/namedenum.hpp:87-98 | the list is the first name, then ", " and the list of the rest |
| NamedEnum.FirstMatchSpec | src/common/namedenum.hpp:113-120 | the search returns the earliest index whose name matches ignoring case, and none exactly when no name matches |
| NamedEnum.LookupSpec | src/common/namedenum.hpp:111-124 | the string constructor selects the earliest matching item, and fails exactly when none matches, with the message naming the enumeration and listing the choices |
| NamedEnum.LookupOfName | src/common/namedenum.hpp:111-124 | with names distinct ignoring case, any spelling of item `i`'s name constructs item `i` |
| NamedEnum.ListAll | src/common/namedenum.hpp:87-98 | `ListAll` returns the names joined in order with ", " |
| NamedEnum.EnumerateAll | src/common/namedenum.hpp:100-109 | `EnumerateAll` returns the `N` names in item order |
| NamedEnum.Select | src/common/namedenum.hpp:111-124 | the constructor's loop returns exactly `Lookup`: the first matching item, or the `runtime_error` with the list of choices |
| NamedEnum.NamedEnumeration.Default | src/common/namedenum.hpp:47 | the default constructor holds the traits' default item |
| NamedEnum.NamedEnumeration.Of | src/common/namedenum.hpp:49 | the constructor from an item holds that item |
| NamedEnum.NamedEnumeration.FromName | src/common/namedenum.hpp:111-124 | the constructor from a name yields a new value holding the item `Lookup` selects, or exactly `Lookup`'s error |
| NamedEnum.NamedEnumeration.Increment | src/common/namedenum.hpp:63-67 | `operator++` moves to the next item |
| NamedEnum.NamedEnumeration.Decrement | src/common/namedenum.hpp:68-72 | `operator--` moves to the previous item |
| NamedEnum.NamedEnumeration.Name | src/common/namedenum.hpp:81 | `Name` returns a name from the traits' table (the current item's) |
| NamedEnum.ExampleList | tests/common/test_namedenum.cpp:46-52 | the example lists its names as "alpha, beta, gamma" |
| NamedEnum.ExampleUppercase | tests/common/test_namedenum.cpp:54-58 | "GAMMA" constructs Gamma |
| NamedEnum.ExampleUnknown | tests/common/test_namedenum.cpp:54-68 | "unknown" is rejected |
| NamedEnum.MessageNamesEnumeration | src/common/namedenum.hpp:122-123 | the message starts "Unknown initializer for" and the enumeration's name, then "; choices are", the list and a full stop |
| TaskRegistry.NamesDistinct | src/async/task_registry_debug.cpp:30-58 | `to_string` gives each task state and each epoch role its own name, so two states (two roles) share a name exactly when they are equal, and every name is in lower case |
| TaskRegistry.LeadingSpaces | src/async/task_registry_debug.cpp:76 | the first `erase` removes exactly the leading run of `isspace` characters: all before the count are spaces, the one at it is not |
| TaskRegistry.WithoutTrailing | src/async/task_registry_debug.cpp:77 | the second `erase` removes exactly the trailing run of spaces: all after the cut are spaces, the one before it is not |
| TaskRegistry.StripPadded | src/async/task_registry_debug.cpp:76-77 | stripping any spaces put around a value that starts and ends with a non-space gives the value back |
| TaskRegistry.NormalizePadded | src/async/task_registry_debug.cpp:74-79 | trimming and lowering a padded value gives the value in lower case, and normalising that again changes nothing |
| TaskRegistry.DumpModeSpec | src/async/task_registry_debug.cpp:81-88 | a padded value selects `None` exactly when its lower-case form is one of "0", "none", "off", "false", "no", `Full` exactly when it is one of "2", "full", "all", "verbose", and `Basic` otherwise; padding and case never change the mode |
| TaskRegistry.WordsDisjoint | src/async/task_registry_debug.cpp:81-84 | no word selects both `None` and `Full`, so the order of the two tests does not matter |
| TaskRegistry.ParseDumpMode | src/async/task_registry_debug.cpp:70-89 | `parse_dump_mode` returns the mode `DumpModeOf` gives, with a null or empty value selecting `Basic` |
| TaskRegistry.EraseSpaces | src/async/task_registry_debug.cpp:76-77 | the two `erase` loops leave the value with its leading and trailing spaces removed |
| TaskRegistry.LowerInPlace | src/async/task_registry_debug.cpp:78-79 | the `transform` loop leaves every character lowered through `tolower` |
| TaskRegistry.LeadingSpacesIs | src/async/task_registry_debug.cpp:76 | any count of leading spaces that stops at a non-space is the one `erase` removes |
| TaskRegistry.WithoutTrailingIs | src/async/task_registry_debug.cpp:77 | any cut with only spaces after it and a non-space before it is the one `erase` makes |
| TaskRegistry.UpdateState | src/async/task_registry_debug.cpp:489-503 | `update_state_locked` sets the new state and the timestamp, counts one more transition, and keeps the identifier, creation time and waits |
| TaskRegistry.TaskRegistryImpl.constructor | src/async/task_registry_debug.cpp:506-510 | a new registry tracks nothing and hands out identifier 1 first, for tasks and for epoch contexts |
| TaskRegistry.TaskRegistryImpl.RegisterTask | src/async/task_registry_debug.cpp:141-159 | a null or already tracked handle changes nothing; a new one is tracked with the next task identifier, its creation time, state `Constructed` and one transition, and the counter moves on; identifiers stay distinct |
| TaskRegistry.TaskRegistryImpl.DestroyTask | src/async/task_registry_debug.cpp:161-166 | forgets exactly that handle and nothing else |
| TaskRegistry.TaskRegistryImpl.SetState | src/async/task_registry_debug.cpp:474-487 | a null or untracked handle changes nothing; otherwise only that task's entry is updated by `update_state_locked` |
| TaskRegistry.TaskRegistryImpl.LeakTask | src/async/task_registry_debug.cpp:168 | `leak_task` is `set_state` with `Leaked` |
| TaskRegistry.TaskRegistryImpl.MarkRunning | src/async/task_registry_debug.cpp:170 | `mark_running` is `set_state` with `Running` |
| TaskRegistry.TaskRegistryImpl.MarkSuspended | src/async/task_registry_debug.cpp:172 | `mark_suspended` is `set_state` with `Suspended` |
| TaskRegistry.TaskRegistryImpl.RegisterEpochContext | src/async/task_registry_debug.cpp:174-187 | a null or tracked context changes nothing; a new one is tracked with the next epoch identifier and its creation time, and the counter moves on |
| TaskRegistry.TaskRegistryImpl.DestroyEpochContext | src/async/task_registry_debug.cpp:189-194 | forgets exactly that context and nothing else |
| TaskRegistry.RegistrationOrder | src/async/task_registry_debug.cpp:141-159 | two tasks registered in turn get consecutive identifiers in that order, and marking the first running leaves it with two transitions while the second keeps one |
| TaskRegistry.BeforeTotal | src/async/task_registry_debug.cpp:260-263 | the dump's comparator (by epoch identifier, then by role) is irreflexive, transitive and total on distinct associations |
| TaskRegistry.InsertElements | src/async/task_registry_debug.cpp:260-263 | inserting an association adds exactly that element |
| TaskRegistry.InsertSpec | src/async/task_registry_debug.cpp:260-263 | inserting into a sorted list keeps it sorted and adds exactly the new element |
| TaskRegistry.SortSpec | src/async/task_registry_debug.cpp:260-263 | the sort returns a sorted permutation of the associations |
| TaskRegistry.UniqueSpec | src/async/task_registry_debug.cpp:264-268 | `unique` and `erase` on a sorted list leave a strictly sorted list of the same elements, ending with the same last element |
| TaskRegistry.StrictlySortedUnique | src/async/task_registry_debug.cpp:258-269 | two strictly sorted lists of the same associations are equal, so the dump's order does not depend on how the associations were gathered |
| TaskRegistry.LeastFirst | src/async/task_registry_debug.cpp:260-263 | the first association of a strictly sorted list comes before every other one |
| TaskRegistry.SortAssociations | src/async/task_registry_debug.cpp:258-269 | the sort and de-duplication of one task's associations return a strictly sorted list holding exactly the associations given |
| TaskRegistry.NormalizeWord | src/async/task_registry_debug.cpp:74-79 | a lower-case value without surrounding spaces is left as it is by trimming and lowering |
| TaskRegistry.DumpModeNoneExamples | tests/async/test_task_registry.cpp:59-63 | "0" and "off" select `None` |
| TaskRegistry.DumpModeFullExamples | tests/async/test_task_registry.cpp:65-69 | "2" and "verbose" select `Full` |
| TaskRegistry.DumpModePaddedExample | tests/async/test_task_registry.cpp:71-74 | "  YeS  " is trimmed and lowered to "yes" and selects `Basic` |
| SharedStorage.ControlBlock.constructor | src/async/shared_storage.hpp:42-46 | a new control block has one reference, held by the handle that made it, and no object |
| SharedStorage.ControlBlock.Construct | src/async/shared_storage.hpp:50-55 | `construct` places the object in an empty slot, counting one construction and leaving the references alone |
| SharedStorage.ControlBlock.DestroyObject | src/async/shared_storage.hpp:57-60 | `destroy_object` runs the destructor only when an object is live, so a second call destroys nothing; afterwards the slot is empty |
| SharedStorage.ControlBlock.AddRef | src/async/shared_storage.hpp:62 | `add_ref` counts one more holder and changes nothing else |
| SharedStorage.ControlBlock.ReleaseRef | src/async/shared_storage.hpp:64-71 | `release_ref` drops one holder; the block is freed exactly when that was the last reference, and then a live object is destroyed first |
| SharedStorage.ControlBlock.Transfer | src/async/shared_storage.hpp:91 | handing a reference from one handle to another keeps the count, the object and the block |
| SharedStorage.SharedStorage.UseCount | src/async/shared_storage.hpp:129 | `use_count` is 0 exactly when there is no block (a usable block always counts its holders) |
| SharedStorage.SharedStorage.Get | src/async/shared_storage.hpp:148-149 | `get` returns the object exactly when one is constructed, and null otherwise |
| SharedStorage.SharedStorage.Empty | src/async/shared_storage.hpp:84 | the default constructor has no control block |
| SharedStorage.SharedStorage.MakeUnconstructed | src/async/shared_storage.hpp:199-203 | `make_unconstructed_shared_storage` gives a fresh block with one reference and no object, and constructs nothing |
| SharedStorage.SharedStorage.MakeConstructed | src/async/shared_storage.hpp:180-193 | `make_shared_storage` gives a fresh block with one reference holding the value, constructed once |
| SharedStorage.SharedStorage.Copy | src/async/shared_storage.hpp:86-89 | the copy constructor shares the block and counts one more reference, leaving the object alone |
| SharedStorage.SharedStorage.Move | src/async/shared_storage.hpp:91 | the move constructor takes the block and its reference, leaving the source empty and the count unchanged |
| SharedStorage.SharedStorage.Reset | src/async/shared_storage.hpp:116-123 | `reset` gives up this handle's reference and leaves it empty; the last reference destroys a live object |
| SharedStorage.SharedStorage.CopyAssign | src/async/shared_storage.hpp:93-102 | copy assignment to itself changes nothing; otherwise it releases the old block and shares the other's with one more reference |
| SharedStorage.SharedStorage.MoveAssign | src/async/shared_storage.hpp:104-112 | move assignment to itself changes nothing; otherwise it releases the old block and takes the other's, leaving the other empty |
| SharedStorage.SharedStorage.Emplace | src/async/shared_storage.hpp:131-138 | `emplace` destroys a live object first and then constructs the value, returning it, with the references unchanged |
| SharedStorage.SharedStorage.Destroy | src/async/shared_storage.hpp:143-146 | `destroy` leaves no object, destroying one only if it was live |
| SharedStorage.SharedStorage.Take | src/async/shared_storage.hpp:173-178 | `take` returns the object's value and destroys it in the slot |
| SharedStorage.TwoHolders | src/async/shared_storage.hpp:45 | two distinct handles on one block make its strong count at least two |
| SharedStorage.DestroyIdempotent | src/async/shared_storage.hpp:143-146 | calling `destroy` twice destroys a live object once |
| SharedStorage.EmplaceReplaces | tests/async/test_shared_storage.cpp:124-150 | three `emplace` calls make three objects and destroy the first two; dropping the handle destroys the third |
| SharedStorage.CopyAndMove | tests/async/test_shared_storage.cpp:47-75 | a copy makes the count 2, a move keeps it at 2 and empties the source, and dropping both handles destroys the object once |
| StorageBuffer.StorageBuffer.constructor | src/async/storage_buffer.hpp:16 | the default constructor leaves the buffer empty: no object, not owning, a null pointer |
| StorageBuffer.StorageBuffer.InPlace | src/async/storage_buffer.hpp:18-22 | the `std::in_place` constructor constructs the value in the owned slot |
| StorageBuffer.StorageBuffer.DestroyIfOwned | src/async/storage_buffer.hpp:76-84 | `destroy_if_owned` runs the destructor only for a live object in the buffer's own slot, then clears the flag and the pointer |
| StorageBuffer.StorageBuffer.Construct | src/async/storage_buffer.hpp:37-46 | `construct` destroys an owned object first, then constructs the value in the slot and points at it |
| StorageBuffer.StorageBuffer.ResetExternalPointer | src/async/storage_buffer.hpp:63-70 | `reset_external_pointer` destroys an owned object, then refers to the external object without owning it |
| StorageBuffer.StorageBuffer.EnsureDefault | src/async/storage_buffer.hpp:48-61 | `ensure_default` returns the current object if there is one, null when `T` has no default constructor, and otherwise constructs the default value once only; nothing changes except in that one case |
| StorageBuffer.StorageBuffer.Dispose | src/async/storage_buffer.hpp:30 | the destructor destroys an owned object, leaving every construction matched by a destruction |
| StorageBuffer.ConstructTwice | src/async/storage_buffer.hpp:37-46 | constructing twice destroys the first object before the second, and disposing destroys the second |
| StorageBuffer.ExternalNotDestroyed | src/async/storage_buffer.hpp:63-70 | an external object is never destroyed by the buffer, and `ensure_default` hands it back |
| NumaScheduler.IndexMapSpec | src/async/tbb_numa_scheduler.hpp:41-49 | `node_to_index_` knows exactly the nodes of the arenas, and since `emplace` keeps an existing key it sends each node to its first arena |
| NumaScheduler.Resolve | src/async/tbb_numa_scheduler.hpp:129-136 | `index_for_node` on a non-empty arena list always names an arena |
| NumaScheduler.ResolveSpec | src/async/tbb_numa_scheduler.hpp:129-136 | a known node resolves to its first arena, an unknown node to arena 0 |
| NumaScheduler.ResolveDistinct | src/async/tbb_numa_scheduler.hpp:129-136 | with distinct nodes, the node of arena `j` resolves back to `j` |
| NumaScheduler.Balanced | src/async/tbb_numa_scheduler.hpp:138-143 | any run of consecutive counter values hits every residue modulo the arena count equally often, up to one |
| NumaScheduler.Even | src/async/tbb_numa_scheduler.hpp:138-143 | `m` times the arena count consecutive counter values hit every residue exactly `m` times |
| NumaScheduler.DispatchesDistinct | src/async/tbb_numa_scheduler.hpp:55-59 | with distinct nodes and no wrap-around of the counter, the round robin dispatches to arena `i` exactly as often as the counter hits residue `i` |
| NumaScheduler.BalancedDispatches | src/async/tbb_numa_scheduler.hpp:55-59 | with distinct nodes and no wrap-around, tasks without a preferred node spread over the arenas with counts differing by at most one |
| NumaScheduler.DuplicateNodeStarves | src/async/tbb_numa_scheduler.hpp:145-157 | with a node listed twice, its second arena never receives a task: the round robin picks the node and `schedule_on_node` resolves it to the first arena |
| NumaScheduler.EffectiveNodes | src/async/tbb_numa_scheduler.hpp:33-36 | the scheduler always has at least one node: an empty list becomes `{-1}`, any other list is kept |
| NumaScheduler.Scheduler.constructor | src/async/tbb_numa_scheduler.hpp:31-49 | one arena per node in order, every count zero, the counter at zero and nothing dispatched |
| NumaScheduler.Scheduler.IndexForNode | src/async/tbb_numa_scheduler.hpp:129-136 | the arena of a node is its first arena in the list, or arena 0 for an unknown node |
| NumaScheduler.Scheduler.ScheduledCountFor | src/async/tbb_numa_scheduler.hpp:100-106 | `scheduled_count_for` returns the count of the node's first arena, or of arena 0 for an unknown node |
| NumaScheduler.Scheduler.SelectNextNumaNode | src/async/tbb_numa_scheduler.hpp:138-143 | `select_next_numa_node` returns the node of the arena the counter points at, modulo the arena count, and advances the counter modulo 2^64; nothing else changes |
| NumaScheduler.Scheduler.ScheduleOnNode | src/async/tbb_numa_scheduler.hpp:145-157 | `schedule_on_node` sets the scheduled coroutine's preferred node to its arena's node, counts one more task on that arena only, and hands the coroutine to it |
| NumaScheduler.Scheduler.Schedule | src/async/tbb_numa_scheduler.hpp:55-59 | `schedule(task)` sends a coroutine to its preferred node, else to the round robin's next node; the counter advances in both cases because `value_or` evaluates its argument |
| NumaScheduler.Scheduler.ScheduleOn | src/async/tbb_numa_scheduler.hpp:64 | `schedule(task, numa_node)` is `schedule_on_node` with that node, leaving the counter alone |
| NumaScheduler.Scheduler.Reschedule | src/async/tbb_numa_scheduler.hpp:110-120 | `reschedule` uses the preferred node when there is one, and only otherwise advances the round robin |
| NumaScheduler.Scheduler.ScheduleFresh | src/async/tbb_numa_scheduler.hpp:55-59 | `k` tasks without a preferred node advance the counter by `k` and add to each arena the number of round-robin picks that resolve to it |
| NumaScheduler.RoundRobinScheduling | tests/async/test_tbb_numa_scheduler.cpp:14-44 | over distinct nodes, `rounds` tasks per arena give every arena exactly `rounds` tasks, so the counts differ by at most one |
| NumaScheduler.HonorsPreferredNumaNode | tests/async/test_tbb_numa_scheduler.cpp:46-67 | a task preferring the first node adds one to that node's count and none to any other |
| AsyncTaskPromise.NumaNodeRoundTrip | src/async/async_task_promise.hpp:307-319 | setting a preferred node and reading it back gives the same optional for every node except `INT_MIN`, which reads back as no preference; reading then storing a stored value gives it back |
| AsyncTaskPromise.SinkNode.constructor | src/async/async_task_promise.hpp:91-98 | an `ExceptionSinkNode` starts with no owner, no links, no epoch and no explicit flag |
| AsyncTaskPromise.Promise.constructor | src/async/async_task_promise.hpp:414 | a new promise has no owners, no exception, no cancellation, has not started, has no preferred node and an empty sink list |
| AsyncTaskPromise.Promise.ReleaseAwaiter | src/async/async_task_promise.hpp:186-194 | `release_awaiter(count)` subtracts `count` and reports true exactly when that was all the remaining owners, leaving the count at zero |
| AsyncTaskPromise.Promise.AddAwaiter | src/async/async_task_promise.hpp:198-203 | `add_awaiter(count)` adds `count` and returns the count before |
| AsyncTaskPromise.Promise.TakeOwnership | src/async/async_task_promise.hpp:392-397 | `take_ownership` on an unowned coroutine makes it owned once and returns its task |
| AsyncTaskPromise.Promise.ReleaseOwnership | src/async/async_task_promise.hpp:408-411 | `release_ownership` gives up one owner and returns the coroutine exactly when that was the last owner, null otherwise |
| AsyncTaskPromise.Promise.GetReturnObject | src/async/async_task_promise.hpp:421-427 | `get_return_object` returns the coroutine's task and counts it as one more owner |
| AsyncTaskPromise.Promise.TakeSharedOwnership | src/async/async_task_promise.hpp:602-605 | `take_shared_ownership(count)` gives a factory holding `count` claims; a count of zero destroys the coroutine and leaves the factory empty |
| AsyncTaskPromise.Promise.DestroyAndTrack | src/async/async_task_promise.hpp:344-348 | `destroy_and_track` destroys the coroutine frame and leaves the owner count and sink list alone |
| AsyncTaskPromise.Promise.SetException | src/async/async_task_promise.hpp:205-211 | `set_exception` keeps only the first exception; `get_exception` then returns it, and later calls change nothing |
| AsyncTaskPromise.Promise.SetCancelOnResume | src/async/async_task_promise.hpp:274 | `set_cancel_on_resume` sets the cancellation flag and nothing else |
| AsyncTaskPromise.Promise.MarkStarted | src/async/async_task_promise.hpp:322 | `mark_started` sets the started flag and nothing else |
| AsyncTaskPromise.Promise.UnhandledException | src/async/async_task_promise.hpp:490-507 | a `task_cancelled` marks the coroutine to be cancelled and notifies no sink; any other exception is stored as by `set_exception` and is passed to every sink's epoch, in list order |
| AsyncTaskPromise.Promise.NotifySinks | src/async/async_task_promise.hpp:504-505 | the walk along `next` from the head visits the epoch of every sink in list order, and every sink has one |
| AsyncTaskPromise.Promise.SetPreferredNumaNode | src/async/async_task_promise.hpp:307-310 | `set_preferred_numa_node` stores the node, or `INT_MIN` for none, so `preferred_numa_node` reads back the node unless it is `INT_MIN` |
| AsyncTaskPromise.Promise.UnregisterExceptionSink | src/async/async_task_promise.hpp:234-255 | a node owned by another promise is left alone; a node of this list is removed from it, the list stays well formed, and the node is cleared |
| AsyncTaskPromise.Promise.Unlink | src/async/async_task_promise.hpp:243-254 | taking a node of this list out leaves a well-formed list of the other nodes in the same order, and the node cleared |
| AsyncTaskPromise.Promise.Relink | src/async/async_task_promise.hpp:243-246 | once the neighbours are relinked and the head moved on, the list without the node is well formed again |
| AsyncTaskPromise.Promise.Bypass | src/async/async_task_promise.hpp:243-254 | the writes of `unregister_exception_sink` point the predecessor (or the head) past the node and the successor back past it, change no other link, and clear the node |
| AsyncTaskPromise.Promise.Push | src/async/async_task_promise.hpp:222-228 | an unlinked node is linked in front of the list with this owner, its epoch and its flag, and becomes the head |
| AsyncTaskPromise.Promise.Prepend | src/async/async_task_promise.hpp:222-228 | the writes of `register_exception_sink` set the node's owner, epoch, flag and links and point the old head back at it, changing no other link |
| AsyncTaskPromise.Promise.RegisterExceptionSink | src/async/async_task_promise.hpp:217-229 | the node first leaves any list it is in; with no epoch it stays unlinked, otherwise it becomes the head of this list with the epoch and flag; every list involved stays well formed |
| AsyncTaskPromise.Promise.LeaveOther | src/async/async_task_promise.hpp:219 | a node owned by another promise is removed from that promise's list, which stays well formed, and this list is unchanged |
| AsyncTaskPromise.UnlinkedLinked | src/async/async_task_promise.hpp:243-248 | after the relinking, the list without node `k` is a well-formed doubly-linked list from the new head |
| AsyncTaskPromise.PrependedLinked | src/async/async_task_promise.hpp:225-228 | after the prepending writes, the node followed by the old list is a well-formed doubly-linked list starting at the node |
| AsyncTaskPromise.AsyncTaskFactory.constructor | src/async/async_task_promise.hpp:574-584 | the factory adds `count` owners to an unowned coroutine; with a count of zero it destroys the coroutine and holds nothing |
| AsyncTaskPromise.AsyncTaskFactory.Move | src/async/async_task_promise.hpp:536-538 | the move constructor takes the handle and claims and leaves the source empty |
| AsyncTaskPromise.AsyncTaskFactory.TakeNext | src/async/async_task_promise.hpp:529-534 | `take_next` hands out one claim as a task on the coroutine |
| AsyncTaskPromise.AsyncTaskFactory.ReleaseOutstanding | src/async/async_task_promise.hpp:587-596 | `release_outstanding` gives back the unclaimed owners, destroys the coroutine exactly when that leaves it unowned, and empties the factory |
| AsyncTaskPromise.AsyncTaskFactory.MoveAssign | src/async/async_task_promise.hpp:541-550 | move assignment to itself changes nothing; otherwise it releases its own claims and takes over the other's, leaving the other empty |
| AsyncTaskPromise.ShareThenDrop | src/async/async_task_promise.hpp:574-596 | a factory of `n` claims that hands out `k` tasks and is dropped leaves the coroutine with exactly `k` owners, destroyed exactly when `k` is zero |

## Left out

- Atomics, mutexes and memory orders (`std::atomic`, `std::lock_guard`, `std::call_once`) become plain fields under sequential execution. Concurrent interleavings are not modelled, and the `once_flag` of `StorageBuffer` is a boolean.
- Stack traces (`std::stacktrace`, `print_stacktrace`) are not modelled. The registry keeps no traces.
- The clock is a parameter: the `TaskRegistry` methods take the time `now` instead of calling `system_clock::now()`. `format_timestamp` is left out.
- The environment is a parameter: `getenv_or_default`, `expand_environment` and the dump-mode parser take a map or the optional value instead of calling `getenv`. `runtime_dump_mode`'s one-time caching is left out.
- Printing is left out: `TaskRegistryImpl::dump` and `dump_epoch_context`, the `fmt::println` in the NUMA scheduler's constructor, and the trace macros. The dump's sort and de-duplication of a task's associations is modelled.
- `TaskRegistry`: `bind_epoch_task` and `unbind_epoch_task` are empty in the source. The epoch snapshot accessors belong to the coroutine runtime. Neither is modelled.
- CpuMatrixOps.Multiply: requires `out` to differ from both inputs, as does its row step `MultiplyRow`. Writing into an input while it is still read gives a different result, so this case has no specification to prove. `Copy`, `Add`, `Subtract`, `Scale` and `MatrixPowerInto` allow aliasing.
- Strides.SortDesc: a stable insertion sort stands for `std::sort`, which leaves the order of equal keys unspecified. The coalescing lemmas are therefore proved for one order of entries with equal |stride0|. The permutation and sortedness facts hold for any order.
- TaskRegistry.RoleRank: assumes the enumerators of `EpochTaskRole` convert to `Reader` = 0 and `Writer` = 1, the order `to_string` lists them in. The header that declares the enumeration is not part of this model (src/async/task_registry_debug.cpp:26 only names it), so the values are not confirmed.
- Strides.CoalesceStrides: the three-operand overload is modelled only in its corrected form. At rank 0 the code as written starts its write index at 1, which `CoalesceInPlaceAsWritten` exhibits on the in-place overload.
- ExpokitMatrix.SwapRowsInPlace: requires both rows in range (or equal). The source does no bounds check, and an out-of-range row is undefined behaviour there.
- `merge_strides_right` is called but not defined in the files of this model. It is specified abstractly: sort by the first stride descending, then coalesce adjacent mergeable entries.
- The `UnrollHelper` loop nest in src/mdspan/iteration_plan.hpp and its copy in src/level1/apply_unary.hpp are modelled once, as `IterationPlan.Run`. Their unrolling of depths 1 and 2 and the `run_dynamic` recursion collapse into one recursion over the plan.
- The binary `apply_unary` at src/level1/apply_unary.hpp:415-427 does not compile as written: it passes multi-operand descriptors to the single-operand helper. It is left out.
- The `#if 0` copy of `parseTerminalStyle` at src/common/terminal.cpp:445-550 is never compiled and is left out.
- `split_string` (src/common/terminal.cpp:631-650) has the same code as `splitString`. Both are modelled by `TerminalText.SplitString`.
- Floating point is left out: every `matrix_one_norm`, the numeric elimination of `solve_linear_system` (only its argument checks and pivot search are modelled), the floating branches of `from_string`, and the Padé exponential of the expokit.
- `NamedEnumeration`'s `operator==` and its `fmt` formatter are left out: equality is Dafny's equality of the item.
- The TBB arenas are opaque. A scheduled task is recorded as a dispatch to an arena index. `pause`, `resume` and `run_all` are left out.
- The `arenas_.empty()` guards in `scheduled_count_for`, `select_next_numa_node` and `schedule_on_node` can never fire, because the constructor always makes at least one arena. They are not modelled.
- Counts and sizes are `nat`. Only the NUMA round-robin counter wraps (modulo 2^64). The balance lemmas assume it does not wrap during the scheduled run.
- `shared_storage`, `StorageBuffer` and `NamedEnumeration` are modelled for one element type: `int` for the storage slots and an index for the enumeration. Constructors that throw are not modelled.
- In the promise, `await_transform`, `initial_suspend`, `final_suspend`, `resolve_await_suspend_result`, the awaiter structs, `destroy_with_continuation` and the uncaught-exception `CHECK` in `unregister_exception_sink` belong to the coroutine runtime and are left out. The exception sink's epoch is an identifier, and `propagate_unhandled_writer_exception` is represented by the list of epochs notified.
- `static_vector`'s element type is a type parameter, with the default value `T()` passed in explicitly.

## Findings

| source | as written | input that shows it | evidently intended | confidence | as-written member | corrected member |
|---|---|---|---|---|---|---|
| src/mdspan/iteration_plan.hpp:78-94 | a dimension of extent 0 is skipped, but the other dimensions stay in the plan | extents {0, 5}, strides {5, 1}: the plan is (5, 1) and visits five offsets | a view with a zero extent has no elements, so nothing is visited | not executed | IterationPlan.ZeroExtentPlanAsWritten | IterationPlan.MakeIterationPlanWithOffset |
| src/level1/apply_unary.hpp:102-117 | the level-1 builder skips a zero extent in the same way, so `apply_unary_inplace` still runs the other loops | extents {0, 5}, strides {5, 1}: `op` is applied at indices 0 to 4 | no element is touched | not executed | ApplyUnary.ZeroExtentAppliesAsWritten | ApplyUnary.ApplyUnaryInplace |
| src/level1/apply_unary.hpp:324-338 | a rank-0 view gives an empty plan, and `apply_unary_inplace` returns on an empty plan | a rank-0 view, which has one element at its origin | `op` is applied to that single element | not executed | ApplyUnary.RankZeroSkippedAsWritten | ApplyUnary.ApplyUnaryInplace |
| src/mdspan/strides.hpp:101-112 | the in-place `coalesce_strides` starts its write index at 1 and ends with `resize(write)`, whatever the capacity | a contraction of two vectors over their only leg: the M and N groups have capacity 0, and `resize(1)` exceeds it | an empty group stays empty | not executed | Strides.CoalesceInPlaceAsWritten | Strides.CoalesceInPlace |
| src/common/terminal.cpp:291-339 | `std::stoi(…, 16)` accepts a sign, so a `#` colour with a minus sign is taken | "#-10000" gives the foreground RGB(-1, 0, 0) | the token is rejected | not executed | TerminalStyle.HexSignAsWritten | TerminalStyle.HexSignRejected |
| src/common/terminal.cpp:322-330 | `std::stoi` reads a leading run of digits and ignores the rest, so a partly hexadecimal component is taken | "#fg0000" gives red 15 | the token is rejected | not executed | TerminalStyle.HexPartialAsWritten | TerminalStyle.ParseHexColor |
