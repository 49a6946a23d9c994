# Distributed sum check (debug-segmentation-fault example), modelled in Dafny

The program starts N MPI ranks. Each rank fills a buffer of
PER_RANK_ARRAY_SIZE `unsigned long`s and sums it. `MPI_Allreduce` then adds
up the local sums. Rank 0 compares this global sum with a closed-form
expected value. The intended fill puts `rank * SIZE + i` in slot i, so the
buffers of all ranks together hold 0 .. N*SIZE - 1 and the difference is 0.
The fill as built writes slot `i * (rank + 1)` instead, a deliberate
out-of-bounds defect.

Modules:

- `Word` (word.dfy): the C integer widths. `u64` is `unsigned long`, `i32` is `int`. `Wrap` is reduction modulo 2^64.
- `Util` (util.dfy): `calculate_expected_sum` as `ExpectedSum`, with the 64-bit cast and wrap-around written out. `SeriesSum` is the recursive reference 0 + 1 + ... + (n - 1).
- `MpiImpl` (mpi_impl.dfy): both fill rules of `initialize_array` as methods over `array<u64>`. The local-sum loop is `LocalSum`. The all-reduce is the pure function `Allreduce`: the wrapped sum of a sequence of contributions. `process_array_and_calculate_sum` is `ProcessArrayAndCalculateSum`, which takes the other ranks' contributions as a parameter.

PER_RANK_ARRAY_SIZE is defined in constants.h, which is not part of this model.
It is the parameter `size`, of type `PerRankSize`: positive, and below 2^31
because it bounds an `int` loop counter. Ranks are non-negative `int`s. So
`base + i` is below 2^62 and never wraps. The sums are allowed to wrap.
`calculate_expected_sum` is a function of `num_ranks` and the constant
alone, with no side effects, because it is a Dafny function.

The as-built fill is a method whose precondition says every write is in
bounds. `StridedInBoundsIff` proves that this precondition holds exactly
when rank is 0 or the buffer has one slot. So a call on any other rank fails
verification instead of crashing. The fill strategy is a parameter
(`FillStrategy`) of `ProcessArrayAndCalculateSum`.

## Model

| member | source | states |
|---|---|---|
| `Util.SeriesSumClosedForm` | examples/debug-segmentation-fault/src/util.c:9 | twice the series 0 + ... + (n - 1) is n(n - 1), for every n |
| `Util.TotalLengthExact` | examples/debug-segmentation-fault/src/util.c:8 | for num_ranks >= 0 the cast to unsigned long and the product with the size do not wrap: arr_len = num_ranks * SIZE |
| `Util.EvenBranchExact` | examples/debug-segmentation-fault/src/util.c:9 | for even L, L / 2 is exact and (L / 2) * (L - 1) equals the series and L(L - 1)/2 |
| `Util.OddBranchExact` | examples/debug-segmentation-fault/src/util.c:9 | for odd L, (L - 1) / 2 is exact and L * ((L - 1) / 2) equals the series and L(L - 1)/2 |
| `Util.ExpectedSumIsSeries` | examples/debug-segmentation-fault/src/util.c:6-12 | for every num_ranks, negative ones included, both branches return the series 0 + ... + (arr_len - 1) modulo 2^64 |
| `Util.ExpectedSumExact` | examples/debug-segmentation-fault/src/util.c:8-9 | without 64-bit overflow, the result is exactly L(L - 1)/2 and the series, with L = num_ranks * SIZE |
| `Util.ExpectedSumZeroRanks` | examples/debug-segmentation-fault/src/util.c:8-9 | zero ranks give an expected sum of 0 |
| `Util.ExpectedSumMonotone` | examples/debug-segmentation-fault/src/util.c:8-9 | for 0 <= m <= n without overflow at n, the expected sum for m ranks is at most that for n ranks |
| `MpiImpl.SequentialBlock` | examples/debug-segmentation-fault/src/mpi_impl.c:9-12 | the intended contents of rank r's buffer have SIZE values, strictly increasing, from r * SIZE up to (r + 1) * SIZE - 1 |
| `MpiImpl.InitializeArraySequential` | examples/debug-segmentation-fault/src/mpi_impl.c:7-16 | the intended fill `array[i] = base + i` leaves every slot i < SIZE holding rank * SIZE + i |
| `MpiImpl.LastStrideOutOfBounds` | examples/debug-segmentation-fault/src/mpi_impl.c:14 | for rank >= 1 and SIZE >= 2, the as-built fill's last write index (SIZE - 1)(rank + 1) is at least SIZE |
| `MpiImpl.StridedInBoundsIff` | examples/debug-segmentation-fault/src/mpi_impl.c:13-14 | every write index i * (rank + 1) with i < SIZE is below SIZE if and only if rank == 0 or SIZE == 1 |
| `MpiImpl.StridedRankOneOutOfBounds` | examples/debug-segmentation-fault/src/mpi_impl.c:13-14 | rank 1 with a two-slot buffer already writes out of bounds |
| `MpiImpl.InitializeArrayStrided` | examples/debug-segmentation-fault/src/mpi_impl.c:7-16 | where all its writes are in bounds, the as-built fill stores rank * SIZE + i at slot i * (rank + 1), and the buffer ends up the same as with the intended fill |
| `MpiImpl.LocalSum` | examples/debug-segmentation-fault/src/mpi_impl.c:30-34 | the loop returns the sum of all SIZE buffer elements modulo 2^64 |
| `MpiImpl.SequentialBlockSum` | examples/debug-segmentation-fault/src/mpi_impl.c:9-14 | with the intended fill, rank r's buffer sums to r * SIZE * SIZE + SIZE(SIZE - 1)/2 |
| `MpiImpl.SequentialBlockIsSeriesStep` | examples/debug-segmentation-fault/src/mpi_impl.c:9-14 | rank r's intended buffer sums to the series up to (r + 1) * SIZE minus the series up to r * SIZE |
| `MpiImpl.GlobalSumMatchesExpected` | examples/debug-segmentation-fault/src/mpi_impl.c:37-38 | with the intended fill, the all-reduced sum over ranks 0 .. N - 1 equals calculate_expected_sum(N) modulo 2^64, even when the sums overflow |
| `MpiImpl.AllreduceOrderIndependent` | examples/debug-segmentation-fault/src/mpi_impl.c:38 | the reduction gives the same result for any order of the contributions |
| `MpiImpl.ProcessArrayAndCalculateSum` | examples/debug-segmentation-fault/src/mpi_impl.c:18-42 | with either fill (the as-built one only where it is in bounds), the global sum is the all-reduce of the intended local sum and the other ranks' contributions; when all other ranks contribute their intended local sums, it equals calculate_expected_sum(N) |

## Left out

- MPI runtime calls (`MPI_Init`, `MPI_Comm_rank`, `MPI_Comm_size`, `MPI_Barrier`, `MPI_Finalize`) are left out. They are concurrency and process control. Rank and rank count are parameters.
- `MPI_Allreduce` is modelled only as the wrapped sum of a sequence of contributions. Blocking, delivery and "same result on every rank" are not modelled.
- `malloc` failure with `MPI_Abort`, and `free`, are left out. They are foreign allocation and process control. In the model the buffer always exists.
- `MpiImpl.InitializeArrayStrided` does not model what happens after an out-of-bounds write (heap corruption, crash, uninitialised slots on rank 1). Its precondition rules such calls out, and `StridedInBoundsIff` says which calls those are.
- `write_file` in util.c is left out: it is file I/O with a warning on failure.
- main.c is not part of this model. That covers timing with `MPI_Wtime`, `printf`, and the signed difference `(long)(expected_sum - global_sum)`.
- Two other files are not part of this model. docs/src/conf.py is configuration data. hf_model_download.py is a thin wrapper over an external library.

## Findings

| source | as written | input that shows it | evidently intended | confidence | as-written member | corrected member |
|---|---|---|---|---|---|---|
| examples/debug-segmentation-fault/src/mpi_impl.c:13-14 | `array[i * (rank + 1)] = base + i`, with a comment that it faults "when rank > 1" | rank 1, PER_RANK_ARRAY_SIZE 2: iteration i = 1 writes slot 2 of a two-slot buffer; every rank >= 1 with SIZE >= 2 is out of bounds | `array[i] = base + i`, as the comment on line 12 says | not executed; the defect is planted on purpose, and the finding is that it already reaches out of bounds at rank 1, not only above it | `MpiImpl.StridedRankOneOutOfBounds` | `MpiImpl.InitializeArraySequential` |
