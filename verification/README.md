# A Dafny model of CuPy's distributed-array host logic and three helper sets

This project models, in Dafny, the host-side (CPU) logic of four parts of CuPy:

- **`cupyx.distributed._array`**: the multi-GPU `_DistributedArray`.
  - An array is a set of *chunks*. Each chunk lives on a device and covers the cells its *chunk index* selects: a tuple of positive-step slices.
  - Chunks may overlap. Each chunk carries a queue of *partial updates* (a payload plus the sub-index it lands on).
  - The array is in one of five *modes*:
    - `replica`: every chunk holding a cell holds its value;
    - `sum`, `prod`, `min`, `max`: the value of a cell is the reduction of what its holders hold.
  - The model covers:
    - the slice and index algebra (`_extgcd`, `_slice_intersection`, `_index_for_subslice`, `_index_intersection`, `_index_for_subindex`, `_shape_after_indexing`, `_convert_chunk_idx_to_slices`);
    - the mode table;
    - `_apply_updates` and the all-reduce of `_all_reduce_intersections`, with `_apply_and_update_chunks` and `_copy_on_intersection`;
    - `_set_identity_on_intersection` and `_set_identity_on_ignored_entries`;
    - `_replica_mode_chunks_map`, `_op_mode_chunks_map`, `to_replica_mode`, `change_mode`, `reshard`, `asnumpy` and `distributed_array`;
    - the argument handling and per-chunk loop of `_execute_kernel`, with `_prepare_args`, `_prepare_updates` and `_count_chunks_on_devices`;
    - the host logic of `__cupy_override_reduction_kernel__`.
- **`cupyx.scipy.sparse._csr`** (helpers):
  - `check_shape_for_pointwise_op`;
  - the row-pointer arithmetic of `multiply_by_dense`;
  - `diagonal` with the `get_row_id` and `find_index_holding_col_in_row` device searches;
  - the new entries of `setdiag`;
  - `dense2csr` (its two kernels and the cumulative sums);
  - `csr2dense`.
- **`cupy.cuda.compiler`** (helpers):
  - `_get_bool_env_variable`;
  - the RDC flags (`_is_cudadevrt_needed`, `_remove_rdc_option`);
  - `_get_max_compute_capability`, `_get_arch` and `_get_arch_for_options_for_nvrtc`;
  - the option list `_compile_with_cache_cuda` builds;
  - the layout of a disk-cache file (digest, then binary);
  - `is_valid_kernel_name`.
- **`cupy.linalg._einsum_cutn`** (helpers):
  - `_get_einsum_operands`;
  - `_is_cuqnt_22_11_or_higher`;
  - the handling of the `optimize` option in `_try_use_cutensornet`.

How the model is built:

- **Values.** Chunk buffers map *global* cell coordinates to values. The value type is generic, with an abstract monoid for the reduction.
  - The mode table uses int64 values.
  - `sum` and `prod` wrap around explicitly, in two's complement.
- **The all-reduce.** It is proved cell by cell.
  - `CellReduce` states the algorithm on the column of values the chunks hold at one cell.
  - `Consistency` proves that the chunk-level loops project onto that column.
- **Transfers.** Streams, events and NCCL transfers happen immediately and in program order.
- **The chunk map.** `dict[int, list[_Chunk]]` is flattened, in dict order, into one sequence of chunks that carry their device.
- **Python semantics.** Integer floor division and modulo, `str(n)`, `int(s)`, `str.strip()` and `str.split(c)` are modelled in `PyInt`.

`_convert_chunk_idx_to_slices` has two source bugs (see "## Findings"). The project models it twice:

- `ConvertChunkIdxAsWritten` is the code as written;
- `ConvertChunkIdx` is the evident intent.

Every user-facing operation that converts an index map takes a `Conversion` parameter:

- `IndexMaps.Normalize`;
- `DistArrays.DistributedArray`;
- `DistArrays.ReshardArray`.

With `AsWritten` it behaves as the source does. With `Intended` it behaves as the source was meant to. The round-trip and value-preservation lemmas hold for both.

## Model

| member | source | states |
|---|---|---|
| NumTheory.ExtGcdLoop | cupyx/distributed/_array.py:28-32 | Euclid's loop keeps the pair divisible by the result and keeps Bézout's identity `a*x + b*y == g` with `g > 0` |
| NumTheory.ExtGcd | cupyx/distributed/_array.py:18-35 | `_extgcd(a, b)` returns a positive common divisor `g` of `a` and `b` with `a*x - g` a multiple of `b` |
| NumTheory.ExtGcdIsGreatest | cupyx/distributed/_array.py:18-35 | every common divisor of `a` and `b` divides the `g` returned, so `g` is the gcd |
| NumTheory.Lcm | cupyx/distributed/_array.py:50 | `a_step // g * b_step` is a positive common multiple of both steps and equals `b_step // g * a_step` |
| NumTheory.LcmDividesCommonMultiples | cupyx/distributed/_array.py:50 | every common multiple of the two steps is a multiple of `c_step`, so `c_step` is the least one |
| NumTheory.AlignSkip | cupyx/distributed/_array.py:55-56 | `a_skip` puts `a_start + a_step*a_skip` on `b`'s progression, within one period of `c_step` |
| PyInt.FloorDiv | cupyx/distributed/_array.py:118 | Python `//` rounds toward negative infinity, for either sign of the divisor |
| PyInt.FloorMod | cupyx/distributed/_array.py:55 | Python `%` makes `a == (a // b) * b + r` hold, with `r` taking the divisor's sign |
| Slices.Indices | cupyx/distributed/_array.py:148 | `slice.indices(length)`: ValueError exactly for a zero step. The step defaults to 1. A positive step clamps the bounds into `[0, length]`, a negative step into `[-1, length-1]` |
| Slices.SelectsWithinAxis | cupyx/distributed/_array.py:148 | a slice only ever selects positions inside the axis |
| Slices.IndicesIdempotent | cupyx/distributed/_array.py:148-156 | re-normalising the triple `slice.indices` returned gives back the same triple, so `slice(start, stop, step)` keeps the selection |
| Slices.Count | cupyx/distributed/_array.py:118 | the number of members of a positive-step range: `k` is below it exactly when member `k` is below `stop` |
| IndexAlgebra.RangeIntersection | cupyx/distributed/_array.py:38-64 | the result holds exactly the positions both ranges hold, and is None exactly when they share none |
| IndexAlgebra.SliceIntersection | cupyx/distributed/_array.py:38-64 | `_slice_intersection` is normalised and an aligned sub-range of both slices. It selects a position exactly when both slices do |
| IndexAlgebra.RangeIntersectionSymmetric | cupyx/distributed/_array.py:38-64 | the intersection does not depend on the order of the two ranges |
| IndexAlgebra.SliceIntersectionSymmetric | cupyx/distributed/_array.py:38-64 | `_slice_intersection(a, b) == _slice_intersection(b, a)` |
| IndexAlgebra.IntersectionIsAligned | cupyx/distributed/_array.py:38-64 | an intersection is an aligned sub-range of both operands, which is what `_index_for_subslice` needs |
| IndexAlgebra.SubrangeIndex | cupyx/distributed/_array.py:67-78 | for an aligned sub-range, member `k` of `a` indexed by the result is member `k` of `sub`, and both have the same length (`array[a][c] == array[sub]`) |
| IndexAlgebra.IndexForSubslice | cupyx/distributed/_array.py:67-78 | `_index_for_subslice` at slice level: a positive-step local slice of the same length whose members, read through `a`, are `sub`'s |
| IndexAlgebra.IndexIntersection | cupyx/distributed/_array.py:81-97 | `_index_intersection` is None exactly when some axis' intersection is None. Otherwise it holds the per-axis intersections and selects exactly the cells both indices select |
| IndexAlgebra.IndexIntersectionSymmetric | cupyx/distributed/_array.py:81-97 | the intersection of two chunk indices does not depend on their order |
| IndexAlgebra.IndexForSubindex | cupyx/distributed/_array.py:100-106 | `_index_for_subindex` applies `_index_for_subslice` axis by axis |
| IndexAlgebra.SubindexOfIntersection | cupyx/distributed/_array.py:81-106 | on every axis, an intersection is an aligned sub-range of the chunk's own slice, so the re-indexing of `_index_for_subindex` is exact |
| IndexAlgebra.AxisExtent | cupyx/distributed/_array.py:117-118 | `(stop - start - 1) // step + 1` is the range's length when `start <= stop`, and is not positive when `start > stop` |
| IndexAlgebra.ShapeAfterIndexing | cupyx/distributed/_array.py:112-119 | succeeds exactly when the index is no longer than the shape and has no zero step. A zero step raises ValueError, too many entries IndexError. Covered axes get their extent, the others keep their length |
| IndexAlgebra.Padded | cupyx/distributed/_array.py:137 | the index is padded to `ndim` entries with `slice(None)` |
| IndexAlgebra.ConvertAxes | cupyx/distributed/_array.py:139-160 | the per-axis loop succeeds exactly when every axis converts. The result holds each axis' conversion, and the first failing axis decides the error |
| IndexAlgebra.ConvertItemAsWritten | cupyx/distributed/_array.py:141-158 | one axis as written. An int is accepted exactly when `n < length` (else IndexError). A slice is rejected with ValueError exactly when `indices` fails, the step is negative or `start == stop`. Anything else is ValueError |
| IndexAlgebra.ConvertItemAsWrittenInt | cupyx/distributed/_array.py:141-146 | the slice built from an accepted int selects exactly the position numpy's integer index denotes, except for `-1`, whose slice selects nothing |
| IndexAlgebra.ConvertChunkIdxAsWritten | cupyx/distributed/_array.py:122-160 | `_convert_chunk_idx_to_slices` as written. Too many entries is IndexError. Otherwise it succeeds exactly when every padded axis converts, with the per-axis results, and the first failing axis decides the error |
| IndexAlgebra.ConvertItem | cupyx/distributed/_array.py:141-158 | one axis as intended. It is accepted exactly when the entry is an in-range (possibly negative) int or a positive-step slice selecting something. The result is normalised, nonempty and selects exactly what the entry denotes |
| IndexAlgebra.ConvertChunkIdx | cupyx/distributed/_array.py:122-160 | the intended conversion: too many entries is IndexError, and an accepted result is a valid, nonempty chunk index |
| IndexAlgebra.ConvertChunkIdxMeaning | cupyx/distributed/_array.py:122-160 | the intended conversion succeeds exactly when every padded entry is acceptable. It selects exactly the cells the user's index denotes |
| IndexAlgebra.ConvertedShape | cupyx/distributed/_array.py:112-119 | a valid nonempty chunk index has a positive `_shape_after_indexing` extent on every axis, equal to the axis' count |
| IndexAlgebra.ConvertAgreesAwayFromFindings | cupyx/distributed/_array.py:122-160 | without negative ints and reversed slices, the as-written and intended conversions coincide |
| IndexMaps.ConvertAll | cupyx/distributed/_array.py:934-939 | the loop `idxs[i] = convert(idxs[i])` succeeds exactly when every index converts. It keeps the results in order, and the first failure raises |
| IndexMaps.ConvertChunk | cupyx/distributed/_array.py:122-160 | either reading of the conversion yields valid chunk indices, and the intended one nonempty ones |
| IndexMaps.ConvertedValid | cupyx/distributed/_array.py:934-939 | every converted index list holds valid indices (and nonempty ones under the intended reading) |
| IndexMaps.Key | cupyx/distributed/_array.py:940-941 | the sort key is the list of `s.indices(l)` triples over the zipped axes |
| IndexMaps.KeyLeTotal | cupyx/distributed/_array.py:940-941 | Python's list comparison on keys is total |
| IndexMaps.KeyLeTransitive | cupyx/distributed/_array.py:940-941 | Python's list comparison on keys is transitive |
| IndexMaps.Insert | cupyx/distributed/_array.py:940-941 | one step of the sort adds exactly the element to the multiset |
| IndexMaps.InsertSorted | cupyx/distributed/_array.py:940-941 | inserting into a sorted list keeps it sorted |
| IndexMaps.SortIdx | cupyx/distributed/_array.py:940-941 | `idxs.sort(key=...)` is a permutation |
| IndexMaps.SortIdxSorted | cupyx/distributed/_array.py:940-941 | the result of `idxs.sort(key=...)` is sorted by key |
| IndexMaps.SortIdxValid | cupyx/distributed/_array.py:940-941 | sorting keeps a list of valid (and of nonempty) indices so |
| IndexMaps.FirstError | cupyx/distributed/_array.py:930-942 | None exactly when every device's list converts. Otherwise it is the error of the first device, in the map's order, whose list fails: every device before it converts |
| IndexMaps.Normalize | cupyx/distributed/_array.py:930-942 | `new_index_map` succeeds exactly when every list converts. It keeps the devices in order, with each list converted and sorted, and otherwise raises the error of the first device, in the map's order, whose list fails |
| IndexMaps.NormalizeFirstError | cupyx/distributed/_array.py:935-942 | `{0: 7, 1: slice(2, 2)}` on shape (4,) raises the IndexError of device 0, not the ValueError of device 1, under either conversion |
| IndexMaps.NormalizeSorted | cupyx/distributed/_array.py:930-942 | each list of the normalised map is sorted, valid, and nonempty under the intended reading |
| IndexMaps.Flatten | cupyx/distributed/_array.py:944-957 | the `(device, index)` pairs of the nested loop are exactly those the map lists |
| IndexMaps.FlattenValid | cupyx/distributed/_array.py:944-957 | every chunk index a normalised map lists is valid (and nonempty under the intended reading) |
| Modes.Wrap | cupyx/distributed/_array.py:240-246 | int64 two's-complement wrap-around: congruent to the exact result modulo 2^64, and equal to it when it fits |
| Modes.ParseMode | cupyx/distributed/_array.py:240-246 | a lookup in `_MODES` succeeds on exactly its five keys. Anything else raises RuntimeError |
| Modes.ParseModeString | cupyx/distributed/_array.py:240-246 | looking up a mode's own name gives the mode back |
| Modes.SumLawful | cupyx/distributed/_array.py:244 | wrapped int64 addition with identity 0 is a monoid |
| Modes.ProdLawful | cupyx/distributed/_array.py:245 | wrapped int64 multiplication with identity 1 is a monoid |
| Modes.ModeTableSound | cupyx/distributed/_array.py:240-246 | every mode of the table is a lawful monoid, and its `idempotent` flag is true exactly when the operator is idempotent |
| Chunks.LastWrite | cupyx/distributed/_array.py:292-303 | the last queued update covering a cell, present exactly when some update covers it |
| Chunks.DrainReplica | cupyx/distributed/_array.py:299-303 | in replica mode, draining the queue leaves the last covering update's payload, or the buffer where none covers |
| Chunks.DrainOp | cupyx/distributed/_array.py:297-299 | in an op mode, draining combines the buffer with every covering update's contribution |
| Chunks.ApplyUpdates | cupyx/distributed/_array.py:292-303 | `_apply_updates` empties the queue and keeps index and device. Each cell becomes the last write (replica) or the combination of all writes (op mode) |
| Chunks.ApplyUpdatesSettled | cupyx/distributed/_array.py:292-303 | applying the queue does not change what the chunk settles to |
| Chunks.ApplyAndUpdate | cupyx/distributed/_array.py:590-621 | `_apply_and_update_chunks` queues the source's values on the intersection at the destination. For a non-idempotent mode it resets the source's intersection to the identity, and changes nothing else |
| Chunks.ApplyAndUpdateConserves | cupyx/distributed/_array.py:590-621 | one transfer keeps the combination of source and destination at every cell |
| Chunks.ResetNeeded | cupyx/distributed/_array.py:612-619 | for any lawful operator, a transfer that skips the reset to the identity (the idempotent branch) reduces the two chunks' contributions to the old reduction combined with src's value once more, so src is counted twice |
| Chunks.ResetNeededSum | cupyx/distributed/_array.py:612-619 | with `sum`, skipping the reset changes the reduced total whenever src holds a nonzero value at the cell, so the non-idempotent modes need it |
| Chunks.CopyOnIntersection | cupyx/distributed/_array.py:647-665 | `_copy_on_intersection` queues the source's values at exactly the cells both chunks hold |
| Chunks.SetIdentityOnIntersection | cupyx/distributed/_array.py:667-677 | `_set_identity_on_intersection` sets exactly the cells both indices hold to the identity |
| Chunks.FillAllCovered | cupyx/distributed/_array.py:679-684 | filling every queued region sets exactly the cells some update covers |
| Chunks.SetIdentityOnIgnoredEntries | cupyx/distributed/_array.py:679-684 | `_set_identity_on_ignored_entries` sets exactly the cells some queued update covers, and keeps the queue |
| CellReduce.AllReduce | cupyx/distributed/_array.py:623-645 | on one cell's column, after both passes every holder holds the reduction of all holders' values |
| CellReduce.AllReduceReachesTotal | cupyx/distributed/_array.py:623-645 | the backward pass after the forward pass gives every holder the total |
| CellReduce.ForwardLoop | cupyx/distributed/_array.py:631-638 | after the forward pass the last holder holds the op-mode value of the cell |
| CellReduce.BackLoop | cupyx/distributed/_array.py:640-645 | after the backward pass every holder holds what the last holder held |
| CellReduce.SpreadLoop | cupyx/distributed/_array.py:635-638 | the inner loop moves chunk `i`'s value onto every later holder: afterwards chunk `i` keeps what the mode leaves it, and each later holder holds the reduction expected at its place |
| CellReduce.TransferAlgebra | cupyx/distributed/_array.py:590-621 | the monoid algebra of one transfer onto a holder: with the identity reset for a non-idempotent mode, the holder's new value is the expected partial reduction |
| CellReduce.PrefixOneHolder | cupyx/distributed/_array.py:783-794 | when every holder but one holds the identity, the reduction is that holder's value |
| CellReduce.PrefixAllEqual | cupyx/distributed/_array.py:696-701 | in an idempotent mode, holders that all hold `x` reduce to `x` |
| Consistency.Transfer | cupyx/distributed/_array.py:590-621 | `_apply_and_update_chunks` on the chunk list changes only source and destination, and keeps the layout |
| Consistency.Forward | cupyx/distributed/_array.py:631-638 | the forward pass keeps the layout and leaves no queue once the earlier chunks have none |
| Consistency.ForwardProjects | cupyx/distributed/_array.py:631-638 | at every cell, the chunk-level forward pass is the cell-level one |
| Consistency.Backward | cupyx/distributed/_array.py:640-645 | the backward pass keeps the layout and leaves every queue empty |
| Consistency.BackwardProjects | cupyx/distributed/_array.py:640-645 | at every cell, the chunk-level backward pass is the cell-level one |
| Consistency.AllReduce | cupyx/distributed/_array.py:623-645 | `_all_reduce_intersections` leaves no pending update. Every chunk holds, at each cell it covers, the reduction of all holders |
| Consistency.AllReduceValues | cupyx/distributed/_array.py:623-645 | every held cell holds the op-mode value of the input |
| Consistency.AllReduceProjects | cupyx/distributed/_array.py:623-645 | at every cell the chunk-level all-reduce is the cell-level one |
| Materialize.Asnumpy | cupyx/distributed/_array.py:892-916 | in an op mode a cell is the reduction of its holders, from the identity. In replica mode a cell is present exactly when held, and equals the last holder's settled value |
| Materialize.PaintOp | cupyx/distributed/_array.py:903-911 | the op-mode loop of `asnumpy` folds the holders' values in chunk order |
| Materialize.PaintReplica | cupyx/distributed/_array.py:903-913 | the replica loop of `asnumpy` writes a cell exactly when some chunk holds it, and the last holder's value stays |
| Construction.Reset | cupyx/distributed/_array.py:958-959 | `array[idx] = identity` resets exactly the cells of `idx`, and only in a non-idempotent op mode |
| Construction.Split | cupyx/distributed/_array.py:944-959 | one chunk per target, with its device and index, and no pending update |
| Construction.SplitData | cupyx/distributed/_array.py:944-959 | chunk `k` holds the input at a cell, or the identity when an earlier chunk already took the cell in a non-idempotent mode |
| Construction.SplitRoundTrip | cupyx/distributed/_array.py:919-962 | `asnumpy` of what `distributed_array` splits gives back the input at every held cell. An unheld cell is empty in replica mode and the identity otherwise |
| Construction.FirstHolder | cupyx/distributed/_array.py:944-959 | the first target holding a cell holds it and none before does |
| DistArrays.ModeProperty | cupyx/distributed/_array.py:347-352 | the `mode` property names the array's mode, which parses back to it |
| DistArrays.Comms | cupyx/distributed/_array.py:322-333 | given communicators are kept. Without them, NCCL makes one per device, and an unavailable NCCL raises RuntimeError |
| DistArrays.DistributedArray | cupyx/distributed/_array.py:919-962 | an unknown mode raises RuntimeError, and a failing index raises its conversion error. With no communicators and no NCCL it raises RuntimeError. Otherwise it is a valid array of the given shape, mode and devices with no pending updates, holding one chunk per (device, index) pair of the normalised map, in map order, on that device and with that index |
| DistArrays.DistributedArrayIs | cupyx/distributed/_array.py:944-957 | the chunks are exactly the split of the array over the normalised map's (device, index) pairs, each a snapshot of `array[idx]` |
| DistArrays.DistributedArrayRoundTrip | cupyx/distributed/_array.py:919-962 | a cell is held exactly when some index of the normalised map selects it; `distributed_array(data, ...).asnumpy()` equals `data` at every held cell, and is the identity (op mode) or uninitialised (replica mode) elsewhere |
| DistArrays.ToReplicaMode | cupyx/distributed/_array.py:798-805 | `to_replica_mode()` gives a valid replica-mode array of the same shape, devices, communicators and chunk layout |
| DistArrays.ToReplicaModeKeepsValues | cupyx/distributed/_array.py:798-805 | `to_replica_mode()` keeps `asnumpy()` at every held cell |
| DistArrays.ChangeMode | cupyx/distributed/_array.py:807-820 | an unknown mode raises RuntimeError. The current mode returns the array itself. Otherwise it is a valid array in the new mode with the same shape, devices and layout |
| DistArrays.ChangeModeToReplica | cupyx/distributed/_array.py:807-820 | `change_mode('replica')` is `to_replica_mode()` |
| DistArrays.ChangeModeKeepsValues | cupyx/distributed/_array.py:807-820 | `change_mode` keeps `asnumpy()` at every held cell |
| DistArrays.NonemptyAllocates | cupyx/distributed/_array.py:851-858 | a valid nonempty chunk index has a shape `cupy.empty`/`cupy.full` accept |
| DistArrays.ReshardArray | cupyx/distributed/_array.py:822-879 | a device without a communicator raises RuntimeError. Otherwise it fails exactly when a list fails to convert (with that error) or a new chunk's shape has a negative extent (ValueError). A result keeps shape, mode and communicators, over the new map's devices |
| DistArrays.ReshardArrayIs | cupyx/distributed/_array.py:843-879 | the new chunks are the result of the transfer loop over fresh chunks on the normalised targets |
| DistArrays.ReshardArrayKeepsValues | cupyx/distributed/_array.py:822-879 | `reshard` keeps `asnumpy()` at every cell the new map holds |
| DistArrays.ReshardIntendedAllocates | cupyx/distributed/_array.py:822-858 | with the intended conversion and every communicator present, `reshard` fails exactly when the index map fails to convert |
| DistArrays.NegativeIntegerMapUnallocatable | cupyx/distributed/_array.py:141-146 | the index map `{0: -1}` on shape (4,) converts as written, but a chunk of it cannot be allocated. It converts under the intended reading too |
| DistArrays.ReshardNegativeIntegerCounterexample | cupyx/distributed/_array.py:851-858 | resharding to `{0: -1}` on shape (4,) raises ValueError as written, and succeeds under the intended reading |
| Resharding.Fresh | cupyx/distributed/_array.py:851-858 | a new chunk has its device and index and no queue, and in an op mode it holds the identity everywhere. In replica mode each new chunk gets its own arbitrary contents |
| Resharding.Reshard | cupyx/distributed/_array.py:843-876 | the transfer loop gives one valid chunk per target, with that target's device and index |
| Resharding.ReshardKeepsValues | cupyx/distributed/_array.py:843-876 | after the loop, `asnumpy()` of the new chunks equals that of the old at every cell the new chunks hold |
| Resharding.ReshardReplicaAgrees | cupyx/distributed/_array.py:862-876 | in replica mode, when every old holder of a cell settles to `v`, every new chunk holding it settles to `v` |
| Resharding.ReshardOpTotal | cupyx/distributed/_array.py:862-876 | in an op mode, after the first `n` old chunks the new chunks' reduction at a held cell is their initial reduction combined with the first `n` old chunks' reduction |
| ModeChange.ReplicaChunks | cupyx/distributed/_array.py:766-772 | `_replica_mode_chunks_map` keeps replica chunks unchanged. An op mode is all-reduced, leaving no queue, and each holder holds the cell's op-mode value |
| ModeChange.ReplicaChunksKeepValues | cupyx/distributed/_array.py:766-772 | the conversion to replica mode keeps `asnumpy()` at every cell |
| ModeChange.DrainAll | cupyx/distributed/_array.py:780-782 | draining every queue in replica mode leaves each chunk holding what it settled to |
| ModeChange.MaskEarlier | cupyx/distributed/_array.py:784-794 | the masking loop keeps layout and queues |
| ModeChange.MaskEarlierData | cupyx/distributed/_array.py:784-794 | a chunk keeps a cell's value exactly when no later chunk holds the cell, and holds the identity there otherwise |
| ModeChange.OpModeChunks | cupyx/distributed/_array.py:774-796 | `_op_mode_chunks_map` keeps the layout and leaves no queue |
| ModeChange.OpModeChunksValues | cupyx/distributed/_array.py:774-796 | each held cell keeps its value only in its last holder. Earlier holders hold the identity |
| ModeChange.OpModeChunksKeepValues | cupyx/distributed/_array.py:774-796 | the conversion to an op mode keeps `asnumpy()` at every cell |
| Kernels.OnDevice | cupyx/distributed/_array.py:359-361 | `index_map[d]`: the indices of the chunks on device `d`, in order |
| Kernels.ToReplicaModeIndexMap | cupyx/distributed/_array.py:798-805 | `to_replica_mode()` keeps the index map |
| Kernels.CountDevices | cupyx/distributed/_array.py:365-370 | the inner loop fails exactly when a device's count disagrees with the recorded one. Otherwise it records each device's chunk count and keeps the earlier counts |
| Kernels.CountArrays | cupyx/distributed/_array.py:363-371 | agreeing counts always succeed, and a failure raises RuntimeError. The result extends the given counts with every array's per-device counts |
| Kernels.CountChunksOnDevices | cupyx/distributed/_array.py:363-371 | `_count_chunks_on_devices` maps every device of every array to its chunk count, and no other device, or raises RuntimeError |
| Kernels.CountSameIndexMap | cupyx/distributed/_array.py:363-371 | arrays sharing one index map never make the count fail |
| Kernels.CollectArgs | cupyx/distributed/_array.py:455-467 | the positional loop succeeds exactly when every argument has a shape equal to the array's, and the array's index map if distributed. It raises at the first argument refused: AttributeError for a scalar, RuntimeError otherwise. It yields the distributed arguments in order, in replica mode, and the keys of the plain `cupy.ndarray` ones; arrays of other libraries are passed over |
| Kernels.CollectKwargsAsWritten | cupyx/distributed/_array.py:470-480 | the keyword loop as written succeeds exactly when every keyword argument is a matching distributed array. It raises at the first one refused: AttributeError for a scalar or for any non-distributed array of the right shape (at `index_map`), RuntimeError for a wrong shape or index map. It keeps the distributed ones unconverted |
| Kernels.FinishArgs | cupyx/distributed/_array.py:413-416 | it fails exactly when the count fails, or when there is a plain array and some operand holds a chunk: `_prepare_args` only runs inside the per-chunk loop (lines 493-495). Every failure is RuntimeError, and otherwise the operands pass unchanged |
| Kernels.SharedHoldsChunks | cupyx/distributed/_array.py:483-495 | operands sharing the array's index map count without failing, and some operand holds a chunk (so the loop calling `_prepare_args` runs) exactly when there is an operand and the array holds a chunk |
| Kernels.ExecuteKernelArgsAsWritten | cupyx/distributed/_array.py:448-483 | the argument handling of `_execute_kernel` as written succeeds exactly when the positional arguments match, every keyword argument is a matching distributed array, and no plain positional array meets a chunk. Its error is the positional loop's, then the keyword loop's, then RuntimeError. The kernel gets the positional operands in replica mode followed by the keyword ones as given |
| Kernels.KwargsAsWrittenCounterexample | cupyx/distributed/_array.py:470-480 | a plain keyword array raises AttributeError as written, and a distributed keyword array is kept in its own mode |
| Kernels.ExecuteKernelArgs | cupyx/distributed/_array.py:448-483 | the intended argument handling succeeds exactly when both loops accept and no plain array meets a chunk. A plain array is therefore refused whenever the chunk loop runs. Errors come from the first refused argument, and are RuntimeError except AttributeError for a scalar. The kernel gets every distributed operand in order, in replica mode, with the caller's index map |
| Kernels.ExecuteKernelArgsAccepts | cupyx/distributed/_array.py:448-483 | matching distributed arguments and no plain ones are always accepted |
| Elementwise.PrepareFrom | cupyx/distributed/_array.py:420-446 | the scan of `_prepare_updates` reports two operands with queues exactly when there are two. Otherwise it returns the one operand with a queue, and that queue |
| Elementwise.PrepareUpdates | cupyx/distributed/_array.py:420-446 | with at most one operand holding a queue, that operand and its queue are returned. With none, nothing is. With two, the queues are drained |
| Elementwise.KernelChunk | cupyx/distributed/_array.py:507-538 | the new chunk has the target's device and index, and one queued update per incoming update, on the same sub-index |
| Elementwise.KernelLastWrite | cupyx/distributed/_array.py:519-538 | the new chunk's last write at a cell is the kernel applied to the operands with the incoming update's payload substituted, and there is none where no incoming update reaches |
| Elementwise.KernelChunkSettles | cupyx/distributed/_array.py:493-538 | the new chunk settles, at every cell, to the kernel applied to what the operands settle to |
| Elementwise.ExecuteStep | cupyx/distributed/_array.py:493-538 | one step of the per-chunk loop builds a chunk on the target's device and index |
| Elementwise.ExecuteStepSettles | cupyx/distributed/_array.py:493-538 | the result chunk settles, at every cell, to the kernel applied to the operands' settled values |
| Elementwise.ExecuteStepAgrees | cupyx/distributed/_array.py:493-538 | operands that agree at a cell give a result chunk that agrees there on the kernel's value |
| Reductions.PyTake | cupyx/distributed/_array.py:724 | Python's `s[:i]`, equal to the prefix when `i` lies inside |
| Reductions.PyDrop | cupyx/distributed/_array.py:724 | Python's `s[i:]`, equal to the suffix when `i` lies inside |
| Reductions.DropAxisAsWritten | cupyx/distributed/_array.py:724 | `shape[:axis] + shape[axis+1:]` removes axis `axis` when it is nonnegative and in range |
| Reductions.DropAxis | cupyx/distributed/_array.py:724 | as intended: accepts exactly `-ndim <= axis < ndim` (else ValueError) and removes that axis, counting a negative one from the end |
| Reductions.DropAxisRestores | cupyx/distributed/_array.py:724 | putting the removed extent back gives the original shape |
| Reductions.DropAxisNegativeCounterexample | cupyx/distributed/_array.py:724 | on shape (2, 3) with `axis=-1` the code as written gives (2, 2, 3), and the intended result is (2,) |
| Reductions.KernelMode | cupyx/distributed/_array.py:693-715 | the reduction kernel names map exactly to the four op modes (`cupy_sum`, `cupy_prod`, `cupy_max`, `cupy_min`). Any other name is unsupported |
| Reductions.ReductionChunks | cupyx/distributed/_array.py:686-722 | fails with RuntimeError exactly for `out`, `keepdims` or an unsupported kernel. Otherwise it gives the kernel's mode and a chunk list of the same layout, the array's own chunks when it is already in that mode |
| Reductions.ReductionChunksIs | cupyx/distributed/_array.py:693-722 | by mode: the copy, the overwritten replica chunks, or `_op_mode_chunks_map` |
| Reductions.ReductionKeepsValues | cupyx/distributed/_array.py:686-722 | at every held cell, the chunks handed to the kernel materialise, in the kernel's mode, to the array's value (for a replica-mode array, provided it is consistent) |
| Reductions.Overwrite | cupyx/distributed/_array.py:717-722 | the `overwrites` loop applies `_set_identity_on_ignored_entries` to every chunk |
| Reductions.OverwrittenSettles | cupyx/distributed/_array.py:717-722 | in an idempotent mode, a chunk agreeing on `v` at a cell (it settles to `v` in replica mode, and every queued write reaching the cell carries `v`) settles to `v` after the overwrite |
| Reductions.OverwriteKeepsValues | cupyx/distributed/_array.py:697-722 | for max/min on a consistent replica array, the overwritten chunks materialise to the array's values |
| Reductions.ConstructionConsistent | cupyx/distributed/_array.py:919-962 | `distributed_array` in replica mode builds a consistent array: every holder of a cell settles to its value |
| Reductions.ChangeModeConsistent | cupyx/distributed/_array.py:807-820 | `change_mode('replica')` of a valid array (consistent if already replica) succeeds and gives a consistent array |
| Reductions.ReshardArrayConsistent | cupyx/distributed/_array.py:822-879 | resharding a consistent replica array gives new chunks that agree, at every cell an old chunk held, on the array's value there |
| Csr.CheckShapeForPointwiseOp | cupyx/scipy/sparse/_csr.py:606-616 | with broadcasting, accepts exactly the pairs whose extents are equal or 1 on both axes. Without it, accepts exactly equal shapes. Failures are ValueError |
| Csr.CheckShapeProperties | cupyx/scipy/sparse/_csr.py:606-616 | broadcasting compatibility is symmetric, and accepts every pair of equal 2-d shapes |
| Csr.GetRowId | cupyx/scipy/sparse/_csr.py:652-667 | the binary search returns the row whose `indptr` range holds `i` |
| Csr.RowUnique | cupyx/scipy/sparse/_csr.py:652-667 | with nondecreasing row pointers, at most one row's range holds `i`, so the row `get_row_id` finds is the only one |
| Csr.FindIndexHoldingColInRow | cupyx/scipy/sparse/_csr.py:669-687 | on a row with sorted columns, returns -1 exactly when no entry of the row has column `col`, and otherwise an entry of the row with that column |
| Csr.ValueAt | cupyx/scipy/sparse/_csr.py:1223-1244 | one thread of `_cupy_csr_diagonal` reads the stored value at (row, col), or zero when none is stored |
| Csr.Diagonal | cupyx/scipy/sparse/_csr.py:278-287 | `diagonal(k)` has `min(rows + min(k, 0), cols - max(k, 0))` elements (none when that is not positive), and element `i` is the matrix value at its diagonal position |
| Csr.SetdiagEntries | cupyx/scipy/sparse/_csr.py:355-372 | ValueError exactly when the diagonal lies outside the matrix. Otherwise it gives the count, column indices and row pointers of the new entries |
| Csr.SetdiagEntriesOnDiagonal | cupyx/scipy/sparse/_csr.py:355-372 | the new entries form a canonical matrix with one entry in exactly the diagonal rows, and the entry of row `r` lies in column `r + k` |
| Csr.SetdiagEntriesValue | cupyx/scipy/sparse/_csr.py:355-372 | the new entries fit the matrix. Entry `t` has column `col_st + t`. The row pointers are zeros up to `row_st`, then `arange(x_len+1)`, then `x_len` |
| Csr.SetdiagCanonical | cupyx/scipy/sparse/_csr.py:355-372 | column indices that increase through the whole entry list make a well-formed matrix canonical |
| Csr.SetdiagIndptr | cupyx/scipy/sparse/_csr.py:371-372 | the new row pointers start at 0, end at `x_len`, never decrease, and give one entry to exactly the rows on the diagonal |
| Csr.Arange | cupyx/scipy/sparse/_csr.py:636-639 | `cupy.arange(start, stop, step)`: an error exactly for step 0. Otherwise a progression below `stop` that reaches it within one step, and empty when `stop <= start` |
| Csr.ArangeCount | cupyx/scipy/sparse/_csr.py:636-639 | `arange` yields exactly the `count` points of the progression |
| Csr.ArangeExact | cupyx/scipy/sparse/_csr.py:636-639 | `arange(0, q*s + 1, s)` has exactly `q + 1` points |
| Csr.MultiplyByDenseIndptrAsWritten | cupyx/scipy/sparse/_csr.py:626-643 | the row pointers of `multiply_by_dense` as written: incompatible shapes raise ValueError, and the call succeeds when no row is broadcast. That the result lists the product's rows in the non-degenerate cases is stated by `Csr.MultiplyByDenseIndptrAgrees` |
| Csr.MultiplyByDenseIndptr | cupyx/scipy/sparse/_csr.py:626-643 | the intended row pointers: they exist exactly for compatible shapes and a nonempty sparse shape. Row `r` of the product has the entries of the sparse row it broadcasts from, times the column factor |
| Csr.MultiplyByDenseIndptrAgrees | cupyx/scipy/sparse/_csr.py:626-643 | the two agree whenever the sparse operand stores an entry or no row broadcast happens |
| Csr.MultiplyByDenseEmptyCounterexample | cupyx/scipy/sparse/_csr.py:636-639 | a 1x1 sparse operand with no entries, broadcast to 2x2, gets `indptr == [0]` as written instead of `[0, 0, 0]` |
| Csr.MultiplyByDenseZeroStepCounterexample | cupyx/scipy/sparse/_csr.py:636-639 | a 1x2 sparse operand with no entries, broadcast to 2x2, calls `arange` with step 0 as written |
| DenseCsr.CumSum | cupyx/scipy/sparse/_csr.py:1180-1181 | `cupy.cumsum` as a running total: element `k` is the sum of the first `k + 1` |
| DenseCsr.FlagSums | cupyx/scipy/sparse/_csr.py:1190-1202 | after `cumsum`, `INFO[i]` is the number of nonzero elements before `i` |
| DenseCsr.TallyCounts | cupyx/scipy/sparse/_csr.py:1190-1202 | step 1 counts, in `INDPTR[r + 1]`, exactly the nonzero elements of row `r` |
| DenseCsr.IndptrSums | cupyx/scipy/sparse/_csr.py:1180 | after `cumsum`, `indptr[r]` is the number of nonzero elements before row `r` |
| DenseCsr.ScatterFills | cupyx/scipy/sparse/_csr.py:1206-1219 | step 2 writes the column and value of nonzero element number `q` at slot `q` |
| DenseCsr.Dense2Csr | cupyx/scipy/sparse/_csr.py:1167-1186 | `dense2csr` on an m x n integer matrix: `m + 1` row pointers and one entry per nonzero element |
| DenseCsr.Dense2CsrIndptr | cupyx/scipy/sparse/_csr.py:1167-1186 | row `r` starts after the nonzero elements before it |
| DenseCsr.Dense2CsrEntry | cupyx/scipy/sparse/_csr.py:1167-1186 | entry `j` holds the column and value of the `j`-th nonzero element |
| DenseCsr.Dense2CsrCanonical | cupyx/scipy/sparse/_csr.py:1167-1186 | the result is canonical (columns strictly increasing within each row) and stores no zeros |
| DenseCsr.Dense2CsrWellFormed | cupyx/scipy/sparse/_csr.py:1167-1186 | the result is a well-formed CSR matrix |
| DenseCsr.Csr2Dense | cupyx/scipy/sparse/_csr.py:1139-1164 | `csr2dense` has `rows * cols` elements, and each is the sum of the stored values landing on it in the chosen order |
| DenseCsr.LayoutInjective | cupyx/scipy/sparse/_csr.py:1157-1159 | `col + N*row` (C order) and `row + M*col` (F order) send distinct cells to distinct positions, and C order is the identity |
| DenseCsr.Csr2DenseRoundTrip | cupyx/scipy/sparse/_csr.py:1139-1186 | `csr2dense(dense2csr(a))` puts every element of `a` back in its place, in either order, and equals `a` in C order |
| Compiler.GetBoolEnvVariable | cupy/cuda/compiler.py:271-278 | unset or empty gives the default. Otherwise the result is true exactly when the text parses as an integer equal to 1, and unparsable text is false |
| Compiler.GetBoolEnvVariableShown | cupy/cuda/compiler.py:271-278 | the text of an integer `n` reads as true exactly when `n == 1` |
| Compiler.IsCudadevrtNeeded | cupy/cuda/compiler.py:234-235 | true exactly when some option is one of the four RDC flags |
| Compiler.IsCudadevrtNeededConcat | cupy/cuda/compiler.py:234-235 | a concatenated option list needs cudadevrt exactly when either part does |
| Compiler.RemoveRdcOption | cupy/cuda/compiler.py:267-268 | removes exactly the RDC flags, keeps the order, and leaves a list without them unchanged |
| Compiler.RemoveRdcOptionConcat | cupy/cuda/compiler.py:267-268 | removal distributes over concatenation |
| Compiler.MaxComputeCapability | cupy/cuda/compiler.py:169-189 | the NVRTC version table gives one of 75, 80, 86, 90 and 120 |
| Compiler.MaxComputeCapabilityMonotone | cupy/cuda/compiler.py:169-189 | over released versions, a later NVRTC never gives a lower maximum |
| Compiler.MaxComputeCapabilityGap | cupy/cuda/compiler.py:181-189 | version 11.9 gives 120 while the later 12.0 gives 90 |
| Compiler.GetArch | cupy/cuda/compiler.py:203-213 | a Tegra architecture is kept. Any other is clamped to the NVRTC maximum (the smaller of the two) |
| Compiler.ArchOptionsForNvrtc | cupy/cuda/compiler.py:216-231 | cubin exactly when PTX is not forced and the architecture is within the maximum. The option is `-arch=sm_<arch>` for cubin and `-arch=compute_<arch>` for PTX |
| Compiler.ArchOptionNamesArch | cupy/cuda/compiler.py:216-231 | `int()` of the option's tail after `-arch=sm_` or `-arch=compute_` gives the architecture back |
| Compiler.ClampedArchGivesCubin | cupy/cuda/compiler.py:203-231 | without forced PTX, a non-Tegra architecture from `_get_arch` always compiles to cubin |
| Compiler.AddedOptions | cupy/cuda/compiler.py:553-560 | the options `_compile_with_cache_cuda` appends itself start with `-ftz=true` |
| Compiler.AddedOptionsFlags | cupy/cuda/compiler.py:553-560 | the appended options never hold the jitify flag, and hold an RDC flag exactly for cooperative groups |
| Compiler.CompileOptions | cupy/cuda/compiler.py:553-574 | ValueError exactly when jitify is requested (by argument or by the flag among the options) with a backend other than NVRTC. Otherwise the caller's options come first and `-ftz=true` is present. Jitify is on exactly when requested, and exactly when its flag is in the list. Cudadevrt is needed exactly for cooperative groups or an RDC flag among the caller's options |
| Compiler.CompileOptionsRdc | cupy/cuda/compiler.py:553-574 | the final options need cudadevrt exactly when the base options do |
| Compiler.IncludesDiffer | cupy/cuda/compiler.py:193-200 | include options are neither the jitify flag nor RDC flags |
| Compiler.ReadCacheFile | cupy/cuda/compiler.py:598-608 | an accepted file is the 40-character digest of its binary followed by that binary, and reading it gives the binary |
| Compiler.CacheFileRoundTrip | cupy/cuda/compiler.py:638-650 | a file written as digest-then-binary reads back as the binary written |
| Compiler.TruncatedCacheFileRejected | cupy/cuda/compiler.py:602 | a file shorter than the digest is never accepted |
| Compiler.RunEnd | cupy/cuda/compiler.py:754-755 | the end of the longest run of identifier characters from `i` |
| Compiler.IsValidKernelNameAsWritten | cupy/cuda/compiler.py:754-755 | `re.match('^…$')` accepts a C identifier, or a C identifier followed by one trailing newline |
| Compiler.KernelNameNewlineCounterexample | cupy/cuda/compiler.py:754-755 | `"k\n"` is accepted as written, but is not an identifier |
| Compiler.IsValidKernelName | cupy/cuda/compiler.py:754-755 | as intended: true exactly when the whole name is a C identifier |
| PyInt.ShowNatValue | cupy/cuda/compiler.py:276 | the digits of `str(n)` read back as `n` |
| PyInt.ParseShowInt | cupy/cuda/compiler.py:276 | `int(str(n)) == n` for every integer |
| PyInt.ParseUnsigned | cupy/cuda/compiler.py:276 | `int` of a digit string is its decimal value |
| PyInt.ParseSigned | cupy/cuda/compiler.py:276 | `int` of `-` followed by digits is the negated value |
| PyInt.StripLeft | cupy/cuda/compiler.py:276 | the stripped text is a suffix that does not start with whitespace |
| PyInt.StripRight | cupy/cuda/compiler.py:276 | the stripped text is a prefix that does not end with whitespace |
| PyInt.Split | cupy/linalg/_einsum_cutn.py:40 | `s.split(sep)` gives at least one piece, and no piece contains the separator |
| PyInt.JoinSplit | cupy/linalg/_einsum_cutn.py:40 | joining the pieces with the separator gives the text back |
| PyInt.SplitJoin | cupy/linalg/_einsum_cutn.py:40 | splitting the join of separator-free pieces gives the pieces back |
| Einsum.ParseAllValues | cupy/linalg/_einsum_cutn.py:40 | the list comprehension succeeds exactly when every piece parses, with each piece's value |
| Einsum.IsCuqnt2211OrHigher | cupy/linalg/_einsum_cutn.py:38-43 | ValueError exactly when a component does not parse. IndexError exactly for a lone major 22. Otherwise true exactly when the version is (22, 11) or later |
| Einsum.IsCuqnt2211OrHigherRelease | cupy/linalg/_einsum_cutn.py:38-43 | for a release `major.minor...` the answer is the lexicographic comparison with (22, 11) |
| Einsum.IsCuqnt2211OrHigherMajorOnly | cupy/linalg/_einsum_cutn.py:38-43 | a lone major version fails exactly for 22, and otherwise is read without a minor |
| Einsum.Interleave | cupy/linalg/_einsum_cutn.py:66-76 | the interleaved argument list alternates operands and inputs |
| Einsum.GetEinsumOperands | cupy/linalg/_einsum_cutn.py:50-76 | ValueError exactly for no arguments. A leading string gives `(expr, operands)`, otherwise operand/input pairs and an optional output. Re-assembling the result gives the arguments back |
| Einsum.InterleaveSnoc | cupy/linalg/_einsum_cutn.py:70-72 | one more loop iteration appends one operand and its input |
| Einsum.DefaultPath | cupy/linalg/_einsum_cutn.py:150-154 | the default path has one step per contraction, `n - 1` for `n >= 2` operands |
| Einsum.DefaultPathRightToLeft | cupy/linalg/_einsum_cutn.py:150-154 | the default path contracts from the right, and is a valid pairwise path for every operand count |
| Einsum.Pairs | cupy/linalg/_einsum_cutn.py:154 | the pairs as path entries, in order |
| Einsum.NormalizePath | cupy/linalg/_einsum_cutn.py:99-175 | `False` gives the default path and `('einsum_path', ...)` its tail. Everything else drops the path. The warning is raised exactly unless the option is `False`, `'cutensornet'`, an `einsum_path` list, or `('cutensornet', <non-number>)` |
| Einsum.Optimizer | cupy/linalg/_einsum_cutn.py:175 | `{'path': path}` exactly for a non-empty kept path, else None |
| Einsum.OptimizerDefaults | cupy/linalg/_einsum_cutn.py:100-154 | `optimize=True` behaves as `'greedy'` (no path, a warning). The default `False` hands the right-to-left path to cuTensorNet |

## Left out

- Device execution: kernels, streams, events, NCCL send/receive and `Device` contexts are not modelled. A transfer takes effect immediately, in program order. `_transfer_async`, `_ManagedData.copy` and `_DataTransfer` reduce to copying values.
- Chunk buffers are keyed by global cell coordinates. The local re-indexing of `_index_for_subindex` is proved exact on its own (`SubrangeIndex`, `SubindexOfIntersection`) instead of being replayed at every copy.
- Dtypes: the distributed array holds int64 values. Floating point (`-inf`/`inf` identities of min/max on floats, NaN), dtype promotion, `atleast_1d` and `new_dtype` are not modelled.
- `__array_ufunc__`, `__matmul__`, `_linalg.matmul`, `__array_finalize__`, `devices`, `_get_chunk_data` and `_copy_chunks_map` copying buffers: these are out of the modelled core.
- Reductions.ReductionChunks: `axis` is a single `int`. `axis=None` and tuple axes are not modelled. The device-side reduction of each chunk is not modelled either. The model stops at the chunk list handed to the kernel, plus the shape arithmetic of line 724.
- Reductions.ReductionKeepsValues: for `max`/`min` of a replica-mode array it assumes `ReplicaConsistent`. That property is proved for `distributed_array` (`ConstructionConsistent`) and for `change_mode('replica')` (`ChangeModeConsistent`). It is proved for `reshard` only at cells an old chunk held (`ReshardArrayConsistent`).
- Reductions.ReshardArrayConsistent: covers only cells some old chunk held. A new replica chunk starts as `cupy.empty`, so at other cells it holds arbitrary values (the `junk` parameter), and nothing makes them agree.
- Elementwise.ExecuteStepAgrees: stated per result chunk. The model has no array-level elementwise operation, because the kernel output is not built into a `_DistributedArray` value. So consistency of `_execute_kernel`'s result is shown chunk by chunk.
- The guard at `_array.py:540-545` that the kernel returned a single array is not modelled: the kernel is a function of the operands' values.
- ParseInt: accepts only ASCII digits `0-9`, while Python's `int()` accepts any Unicode decimal digit (such as U+0661). Whitespace follows Python's full set.
- GetBoolEnvVariable: inherits ParseInt's ASCII-only digits, so a value written with non-ASCII decimal digits reads as false here where Python may read it as 1.
- Einsum.IsCuqnt2211OrHigher: inherits ParseInt's ASCII-only digits.
- Csr.Diagonal: requires the matrix to be in canonical form. The `sum_duplicates()` call of `diagonal` is assumed, not modelled.
- Csr.ValueAt: requires canonical form for the same reason.
- DenseCsr.Dense2Csr: integer matrices only. The cuSPARSE path for `fdFD` dtypes is a foreign call. The int32 kernel arguments and index arithmetic (`i / N`, `atomicAdd` counters, `cupy.cumsum(dtype=int32)`) are unbounded here, so overflow past 2^31 - 1 elements is not modelled.
- DenseCsr.Csr2Dense: the bool-dtype branch (`if (DATA) OUT[index] = true;`) is not modelled, only the `atomicAdd` branch. The int32 index `col + N * row` is unbounded here.
- Csr: `multiply_by_dense` is modelled for its row pointers only. The device kernel `cupy_multiply_by_dense` that fills `data` and `indices` is not modelled. In `setdiag`, the subtraction of the old diagonal from `x_data` and the sparse addition `self + csr_matrix(...)` are not modelled. Only the bounds check and the new entries' count, column indices and row pointers are (`SetdiagEntries`, `SetdiagEntriesValue`).
- Compiler: the compilation itself (NVRTC, NVCC, hipcc, jitify, `_preprocess`), file-system access, `tempfile`/`shutil.move` and the `memoize` caches are I/O or foreign calls. The SHA-1 digest is an abstract function parameter of fixed length 40 (`_hash_length`). The device's compute capability, the NVRTC version and `CUPY_COMPILE_WITH_PTX` are parameters.
- Compiler.ReadCacheFile: `name_expressions` forcing a recompile and a missing file are not modelled, only the content rule of lines 602-608.
- Einsum: the early exits of `_try_use_cutensornet` (HIP, accelerator list, import failure, a single operand, empty or 0-d operands, dtypes) depend on the runtime and the operands' dtypes. They are not modelled. Nor are `cupy.asarray`/`astype`, the per-thread handle cache, the warning text, `tensornet.contract` and `_is_nonblocking_supported` (a plain alias of `_is_cuqnt_22_11_or_higher`).
- DistArrays.DistributedArray: the loop at `_array.py:935-942` converts and sorts the caller's own `index_map` lists in place, so the caller's dict is changed. A list object shared by two devices is converted and sorted twice: under the as-written conversion `[-1]` becomes `slice(-1, 0)` and then `slice(3, 0, 1)` on an axis of length 4. The model's index map is a value, so neither the mutation nor the aliasing is modelled, and each device's entries are converted once.
- DistArrays.ReshardArray: the same in-place conversion and sorting of the caller's lists happens at `_array.py:831-838`. It is not modelled, for the same reason.
- IndexMaps.Normalize: returns a new map and leaves its input as it was. The in-place update and the double conversion of a shared list, in the two callers above, are not modelled.
- The index maps are sequences of `(device, indices)` pairs, not dicts. Every lemma holds for all such sequences, including those with distinct devices that dicts produce.

## Findings

| source | as written | input that shows it | evidently intended | confidence | as-written member | corrected member |
|---|---|---|---|---|---|---|
| cupyx/distributed/_array.py:141-146 | a negative int index `n` becomes `slice(n, n + 1)`: `-1` gives `slice(-1, 0)`, which selects nothing. `reshard` then computes a negative extent and `cupy.empty` raises | index map `{0: -1}` on shape (4,) | count from the end, as numpy does (the docstring promises nonnegative indices) | not executed; high | IndexAlgebra.NegativeIntegerSelectsNothing, DistArrays.ReshardNegativeIntegerCounterexample | IndexAlgebra.ConvertChunkIdx, DistArrays.ReshardIntendedAllocates |
| cupyx/distributed/_array.py:154 | only `start == stop` is rejected as empty. A positive-step slice with `start > stop` is accepted as an empty chunk | `slice(3, 1)` on shape (5,) | reject every empty slice (the docstring says "Raise if empty") | not executed; high | IndexAlgebra.ReversedSliceAccepted | IndexAlgebra.ConvertChunkIdx |
| cupy/cuda/compiler.py:755 | `$` in `re.match` also matches before a trailing newline, so a name ending in `\n` passes | `"k\n"` | the whole name is a C identifier (`\Z` or `re.fullmatch`) | not executed; high | Compiler.KernelNameNewlineCounterexample | Compiler.IsValidKernelName |
| cupy/cuda/compiler.py:169-189 | 11.9 and later 11.x fall to the final branch and get 120, while 12.0 gets 90, so the table is not monotone | NVRTC version (11, 9) | a later NVRTC never supports fewer architectures (11.x after 11.8 does not exist) | not executed; low (no such release) | Compiler.MaxComputeCapabilityGap | Compiler.MaxComputeCapabilityMonotone |
| cupyx/distributed/_array.py:724 | `shape[:axis] + shape[axis+1:]` with a negative axis duplicates axes instead of removing one | shape (2, 3), `axis=-1` gives (2, 2, 3) | remove axis `axis mod ndim` | not executed; medium (a negative axis may be normalised by the caller) | Reductions.DropAxisAsWritten, Reductions.DropAxisNegativeCounterexample | Reductions.DropAxis |
| cupyx/scipy/sparse/_csr.py:636-639 | with row broadcasting, `indptr` comes from `arange(0, nnz+1, n or sp.nnz)`. With `sp.nnz == 0` that gives `[0]` (too short), or steps by 0 | 1x1 sparse with no entries times a 2x2 dense; 1x2 sparse with no entries times a 2x2 dense | `m + 1` row pointers, each row holding its broadcast row's entries | not executed; high for the short `indptr`, medium for the zero step | Csr.MultiplyByDenseIndptrAsWritten, Csr.MultiplyByDenseEmptyCounterexample, Csr.MultiplyByDenseZeroStepCounterexample | Csr.MultiplyByDenseIndptr |
| cupyx/distributed/_array.py:470-480 | keyword arguments read `arg.index_map` before the type is examined, so a plain `cupy.ndarray` keyword raises AttributeError. Distributed keyword arguments are never converted to replica mode | a plain array as a keyword argument; an op-mode distributed array as a keyword argument | treat keyword arguments as the positional loop does: RuntimeError for a mismatch, and conversion with `to_replica_mode()` | not executed; high | Kernels.KwargsAsWrittenCounterexample, Kernels.ExecuteKernelArgsAsWritten | Kernels.ExecuteKernelArgs |
