# Parallel-programming course tasks: a Dafny model

This project models seven tasks of a parallel-programming course repository.
Each task is a class with four stages called in order: `validation`,
`pre_processing`, `run`, `post_processing`. Each stage returns a success flag.
A task's state is the shared `TaskData` record plus the class's own fields.
`TaskData` holds input and output buffers and their element counts.

- **borisov_s_crs_mul** (sequential and MPI). The product of two sparse
  matrices in compressed row storage (CRS). The sequential kernel builds each
  row of C = A·B in a dense scratch row, then appends that row's non-zeros.
  The MPI variant splits A's rows into contiguous blocks, one per rank. Each
  rank runs the same kernel on its block, and the root splices the fragments
  into one CRS matrix (modules `Crs`, `CrsKernel`, `CrsSeq`, `CrsMpi`,
  `CrsExamples`).
- **plekhanov_d_allreduce_mine** and **plekhanov_d_allreduce_boost**. Both
  tasks compute each column's minimum of a row-major integer matrix, and how
  many entries of that column lie strictly above it.
  - The two sequential classes share one model (`ColumnMin`).
  - The "mine" parallel class splits columns between ranks and combines local
    minima with a hand-written binary-tree all-reduce (`AllreduceMine`).
  - The "boost" class scatters row blocks and all-reduces with minimum and
    plus (`AllreduceBoost`).
- **golovkin_rowwise_matrix_partitioning** (sequential and MPI). Dense matrix
  product.
  - The sequential class adds A·B onto an output matrix of row vectors
    (`RowwiseSeq`).
  - The MPI class scatters balanced row blocks of a flat A, multiplies each
    block by B, and gathers the result on the root (`RowwiseMpi`).
- **mezhuev_m_lattice_torus**. Every rank of a square d×d torus exchanges
  its buffer with its left, right, up and down neighbours. It then writes the
  four received buffers, in that order, into its output (`Torus`).
- **lavrentyev_a_line_topology**. A data buffer travels along the line of
  ranks from a start rank to an end rank. Every rank on the way records itself
  in a path array, and the end rank outputs the data and the path
  (`LineTopology`).

Shared pieces:
- `Task` holds the `TaskData` record (buffers are `Data(items)` or `Null`) and
  the C `unsigned` to `int` cast.
- `Dense` holds dot products, columns of row-major buffers, and small
  arithmetic lemmas.

Modelling conventions:
- **The world of ranks.** An MPI world of `size` ranks becomes one of two
  things:
  - a loop over the ranks inside one method, with a message as a value handed
    from one rank's pass to the next;
  - or, for per-rank classes (torus, line), a `rank`/`size` parameter, with
    the messages the rank receives given as an argument.
- **Collectives.** Broadcast, scatterv, gatherv and all-reduce become
  functions such as `Scatterv`, `ReduceMin`, `ReduceSum`, or a concatenation.
- **Numbers.** Matrix entries, doubles included, are exact integers.

## Model

| member | source | states |
|---|---|---|
| Task.ToInt32 | tasks/mpi/golovkin_rowwise_matrix_partitioning/src/ops_mpi.cpp:12-15 | the unsigned-to-int conversion keeps counts below 2^31 and wraps counts in [2^31, 2^32) to negative values |
| Crs.ColumnCount | tasks/seq/borisov_s_crs_mul/src/ops_seq.cpp:45-55 | the derived column count is one more than the largest column index: every index lies below it and one index attains it; an empty index array gives 0 |
| Crs.RowBounds | tasks/seq/borisov_s_crs_mul/src/ops_seq.cpp:76-77 | in a well-formed CRS matrix a row's pointers are ordered and lie within the value array |
| Crs.AddScaledRowAt | tasks/seq/borisov_s_crs_mul/src/ops_seq.cpp:83-90 | adding a·(row of B) to the scratch row raises entry col by exactly a times B's entries in that column |
| Crs.AccumulatedAt | tasks/seq/borisov_s_crs_mul/src/ops_seq.cpp:79-91 | after the non-zeros of A's row up to p, scratch entry col is the sum of A[i][k]·B[k][col] over those non-zeros |
| Crs.DenseRowAt | tasks/seq/borisov_s_crs_mul/src/ops_seq.cpp:79-91 | the finished scratch row holds entry (i, col) of A·B |
| Crs.NonZerosSpec | tasks/seq/borisov_s_crs_mul/src/ops_seq.cpp:94-99 | the scan of the scratch row yields exactly its non-zero entries with their column indices, in strictly increasing column order |
| Crs.RowOf | tasks/seq/borisov_s_crs_mul/src/ops_seq.cpp:73-100 | one row of C has valid, sorted column indices below the column count |
| Crs.AppendRow | tasks/seq/borisov_s_crs_mul/src/ops_seq.cpp:93-99 | appending a row extends row_ptr by one entry equal to the new value count and keeps the earlier pointers |
| Crs.Build | tasks/seq/borisov_s_crs_mul/src/ops_seq.cpp:73-103 | rows laid out one after another give row_ptr starting at 0 and ending at the number of values, with as many column indices as values |
| Crs.Rows | tasks/seq/borisov_s_crs_mul/src/ops_seq.cpp:73-100 | the rows lo..hi-1 of C, each valid |
| Crs.Product | tasks/seq/borisov_s_crs_mul/src/ops_seq.cpp:66-106 | the CRS product of rows lo..hi-1 has hi-lo+1 row pointers from 0 and consistent value/index lengths |
| Crs.ProductSnoc | tasks/seq/borisov_s_crs_mul/src/ops_seq.cpp:73-100 | one more iteration of the row loop appends row hi-1 to the product so far |
| Crs.ProductEmpty | tasks/seq/borisov_s_crs_mul/src/ops_seq.cpp:57-61 | no rows gives the empty matrix with row_ptr [0] |
| Crs.AppendRowWellFormed | tasks/seq/borisov_s_crs_mul/src/ops_seq.cpp:93-99 | appending a valid row keeps the matrix well formed and its rows sorted |
| Crs.BuildWellFormed | tasks/seq/borisov_s_crs_mul/src/ops_seq.cpp:73-103 | a matrix built from valid rows is well formed, row-sorted and has one row per entry |
| Crs.ProductWellFormed | tasks/seq/borisov_s_crs_mul/src/ops_seq.cpp:66-106 | the product is a well-formed, row-sorted CRS matrix with hi-lo rows |
| Crs.BuildPrefix | tasks/seq/borisov_s_crs_mul/src/ops_seq.cpp:73-100 | building a prefix of the rows gives a prefix of the arrays: appending rows never rewrites earlier ones |
| Crs.BuildRow | tasks/seq/borisov_s_crs_mul/src/ops_seq.cpp:93-99 | row k of the built matrix occupies row_ptr[k]..row_ptr[k+1] and holds exactly that row's values and indices |
| Crs.ProductRow | tasks/seq/borisov_s_crs_mul/src/ops_seq.cpp:73-100 | row i of the product holds exactly the non-zeros of row i of A·B |
| Crs.SliceNonZeros | tasks/seq/borisov_s_crs_mul/src/ops_seq.cpp:94-99 | within a stored row, column col appears iff the dense entry is non-zero, and then with that value |
| Crs.SliceAt | tasks/seq/borisov_s_crs_mul/src/ops_seq.cpp:94-99 | the stored slice of a row equals the row's entries position by position |
| Crs.ProductEntry | tasks/seq/borisov_s_crs_mul/src/ops_seq.cpp:66-106 | C holds (i, col) iff entry (i, col) of A·B is non-zero, and then with that value |
| Crs.Shift | tasks/mpi/borisov_s_crs_mul/src/ops_mpi.cpp:138-141 | every row pointer of a fragment is offset by the value count already gathered |
| Crs.Splice | tasks/mpi/borisov_s_crs_mul/src/ops_mpi.cpp:123-144 | splicing a fragment adds its row pointers after the first, shifted |
| Crs.SpliceAppend | tasks/mpi/borisov_s_crs_mul/src/ops_mpi.cpp:123-144 | splicing commutes with appending a row to the fragment |
| Crs.SpliceEmpty | tasks/mpi/borisov_s_crs_mul/src/ops_mpi.cpp:123-144 | splicing an empty fragment changes nothing |
| Crs.SpliceBuild | tasks/mpi/borisov_s_crs_mul/src/ops_mpi.cpp:123-144 | splicing the matrices built from two row lists builds their concatenation |
| Crs.RowsSplit | tasks/mpi/borisov_s_crs_mul/src/ops_mpi.cpp:87-89 | the rows of adjacent ranges join into the rows of their union |
| Crs.SpliceProduct | tasks/mpi/borisov_s_crs_mul/src/ops_mpi.cpp:123-144 | the splice of the products of rows lo..mid-1 and mid..hi-1 is the product of rows lo..hi-1 |
| CrsKernel.AccumulateRow | tasks/seq/borisov_s_crs_mul/src/ops_seq.cpp:74-91 | the array loop over A's row leaves the scratch array equal to row i of A·B |
| CrsKernel.AppendNonZeros | tasks/seq/borisov_s_crs_mul/src/ops_seq.cpp:94-99 | the scan appends exactly the scratch row's non-zeros and their columns, and counts them |
| CrsKernel.EmitRow | tasks/seq/borisov_s_crs_mul/src/ops_seq.cpp:74-99 | one row iteration appends row i of C's values and column indices |
| CrsKernel.MultiplyRows | tasks/seq/borisov_s_crs_mul/src/ops_seq.cpp:66-106 | the row loop yields exactly the CRS product of rows start..end-1 |
| CrsKernel.RowLoopStep | tasks/seq/borisov_s_crs_mul/src/ops_seq.cpp:93-99 | the loop invariant survives one row |
| CrsKernel.RowLoopEnd | tasks/seq/borisov_s_crs_mul/src/ops_seq.cpp:102-103 | setting the last row pointer completes the product |
| CrsSeq.ValidationRows | tasks/seq/borisov_s_crs_mul/src/ops_seq.cpp:24-29 | a validated task has at least one row in A and in B, read as row_ptr length minus one |
| CrsSeq.ValidationAcceptsMismatch | tasks/seq/borisov_s_crs_mul/src/ops_seq.cpp:11-30 | validation accepts a 1×2 A with a 1-row B, which run cannot multiply |
| CrsSeq.ValidationCheckedCompatible | tasks/mpi/borisov_s_crs_mul/src/ops_mpi.cpp:61-69 | with the column/row check, well-shaped operands are compatible for the kernel |
| CrsSeq.ValidationCheckedRejectsMismatch | tasks/mpi/borisov_s_crs_mul/src/ops_mpi.cpp:61-69 | the checked validation rejects the mismatched operands |
| CrsSeq.CrsMatrixMulTask.Initialize | tasks/seq/borisov_s_crs_mul/include/ops_seq.hpp:20-39 | initialize stores both operands and their shapes, and sets C's shape to A's rows × B's columns |
| CrsSeq.CrsMatrixMulTask.PreProcessing | tasks/seq/borisov_s_crs_mul/src/ops_seq.cpp:32-64 | the operands are read from the six buffers, column counts are derived, and C gets A_nrows+1 zero row pointers |
| CrsSeq.CrsMatrixMulTask.Run | tasks/seq/borisov_s_crs_mul/src/ops_seq.cpp:66-106 | C becomes the CRS product of A and B over all of A's rows, with C_nnz its value count; every field it does not write keeps its value |
| CrsSeq.CrsMatrixMulTask.PostProcessing | tasks/seq/borisov_s_crs_mul/src/ops_seq.cpp:108-140 | C's three arrays and their lengths are written to the three outputs; inputs are unchanged; every field it does not write keeps its value |
| CrsExamples.SquareExample | tasks/seq/borisov_s_crs_mul/func_tests/main.cpp:39-93 | [[1,2],[3,4]]·[[5,6],[7,8]] gives values 19, 22, 43, 50 with row_ptr [0,2,4] |
| CrsExamples.ZeroExample | tasks/seq/borisov_s_crs_mul/func_tests/main.cpp:96-159 | the product of two zero-density 3-row matrices has no values and row_ptr [0,0,0,0] |
| CrsExamples.ThreeExample | tasks/mpi/borisov_s_crs_mul/func_tests/main.cpp:49-115 | the MPI 3×3 test's product, written out |
| CrsMpi.RowEnd | tasks/mpi/borisov_s_crs_mul/src/ops_mpi.cpp:87-89 | a rank's row range lies inside 0..n; the last rank takes the leftover rows |
| CrsMpi.RowRangesContiguous | tasks/mpi/borisov_s_crs_mul/src/ops_mpi.cpp:87-89 | each rank's range ends where the next starts |
| CrsMpi.RowRangesCover | tasks/mpi/borisov_s_crs_mul/src/ops_mpi.cpp:87-89 | the ranges start at row 0 and end at row n |
| CrsMpi.RowRangesDisjoint | tasks/mpi/borisov_s_crs_mul/src/ops_mpi.cpp:87-89 | a lower rank's range ends before a higher rank's begins |
| CrsMpi.OperandA | tasks/mpi/borisov_s_crs_mul/src/ops_mpi.cpp:16-47 | A's arrays have the lengths inputs_count gives, and row count inputs_count[2]-1 |
| CrsMpi.OperandB | tasks/mpi/borisov_s_crs_mul/src/ops_mpi.cpp:16-47 | likewise for B |
| CrsMpi.ValidationCompatible | tasks/mpi/borisov_s_crs_mul/src/ops_mpi.cpp:49-73 | operands that the root validates are compatible for the kernel |
| CrsMpi.ValidationRejectsMismatch | tasks/mpi/borisov_s_crs_mul/src/ops_mpi.cpp:61-69 | the root rejects the mismatched operands, and the other ranks accept them |
| CrsMpi.CrsMatrixMulTaskMpi.PreProcessing | tasks/mpi/borisov_s_crs_mul/src/ops_mpi.cpp:16-47 | the root reads both operands and sets C's shape; other ranks keep their state; every field it does not write keeps its value |
| CrsMpi.CrsMatrixMulTaskMpi.Run | tasks/mpi/borisov_s_crs_mul/src/ops_mpi.cpp:75-152 | for every world size, the spliced fragments equal the sequential product over all rows; every field it does not write keeps its value |
| CrsMpi.CrsMatrixMulTaskMpi.PostProcessing | tasks/mpi/borisov_s_crs_mul/src/ops_mpi.cpp:154-168 | the root writes C's three arrays to the outputs; other ranks change nothing; every field it does not write keeps its value |
| CrsMpi.LocalFragments | tasks/mpi/borisov_s_crs_mul/src/ops_mpi.cpp:98-121 | rank r's fragment is the product of its own row range |
| CrsMpi.SpliceFragments | tasks/mpi/borisov_s_crs_mul/src/ops_mpi.cpp:123-144 | splicing the fragments in rank order gives the product of all rows |
| CrsMpi.SpliceOne | tasks/mpi/borisov_s_crs_mul/src/ops_mpi.cpp:132-142 | one fragment's values and indices are appended; the first fragment's row_ptr is taken whole, and later ones are shifted after the first entry |
| CrsMpi.AppendShifted | tasks/mpi/borisov_s_crs_mul/src/ops_mpi.cpp:138-141 | the row-pointer loop appends the fragment's pointers after the first, shifted by the offset |
| ColumnMin.MinFromBelow | tasks/mpi/plekhanov_d_allreduce_mine/src/ops_mpi.cpp:32-40 | a running minimum is at most its start and at most every scanned entry |
| ColumnMin.MinFromAttained | tasks/mpi/plekhanov_d_allreduce_mine/src/ops_mpi.cpp:32-40 | a running minimum is its start or one of the scanned entries |
| ColumnMin.IsMinUnique | tasks/mpi/plekhanov_d_allreduce_mine/src/ops_mpi.cpp:32-40 | a sequence has one minimum |
| ColumnMin.FirstStartIsMin | tasks/mpi/plekhanov_d_allreduce_mine/src/ops_mpi.cpp:33-39 | a scan started from the first entry yields the column's minimum |
| ColumnMin.IntMaxStartIsMin | tasks/mpi/plekhanov_d_allreduce_mine/src/ops_mpi.cpp:145-151 | a scan started from INT_MAX yields the minimum of a non-empty column of 32-bit entries |
| ColumnMin.MinFromAppend | tasks/mpi/plekhanov_d_allreduce_boost/src/ops_mpi.cpp:113-121 | scanning s then t equals scanning t from s's minimum |
| ColumnMin.CountAboveAppend | tasks/mpi/plekhanov_d_allreduce_boost/src/ops_mpi.cpp:123-132 | counts over concatenated stretches add up |
| ColumnMin.CountAboveMissesOne | tasks/mpi/plekhanov_d_allreduce_mine/src/ops_mpi.cpp:41-47 | an entry not above m is not counted |
| ColumnMin.CountAboveAtMost | tasks/mpi/plekhanov_d_allreduce_mine/src/ops_mpi.cpp:41-47 | the count is at most the column length |
| ColumnMin.CountAboveMinBound | tasks/mpi/plekhanov_d_allreduce_mine/src/ops_mpi.cpp:41-47 | against the column's minimum, at most rows-1 entries are counted |
| ColumnMin.StartBelowIntMax | tasks/mpi/plekhanov_d_allreduce_mine/src/ops_mpi.cpp:145-151 | starting from INT_MAX equals starting from the first entry when it fits an int |
| ColumnMin.Across | tasks/mpi/plekhanov_d_allreduce_mine/src/ops_mpi.cpp:86-127 | entry i of every rank's buffer, in rank order |
| ColumnMin.ReduceMin | tasks/mpi/plekhanov_d_allreduce_boost/src/ops_mpi.cpp:122 | the element-wise minimum over ranks has the buffers' length |
| ColumnMin.ReduceSum | tasks/mpi/plekhanov_d_allreduce_boost/src/ops_mpi.cpp:133 | the element-wise sum over ranks has the buffers' length |
| ColumnMin.ReduceMinIsMin | tasks/mpi/plekhanov_d_allreduce_boost/src/ops_mpi.cpp:122 | entry i of the min-reduction is the minimum over the ranks' entries i |
| ColumnMin.SumSingle | tasks/mpi/plekhanov_d_allreduce_mine/src/ops_mpi.cpp:162-163 | a sum over ranks where only one rank contributes is that rank's value |
| ColumnMin.MinSingle | tasks/mpi/plekhanov_d_allreduce_mine/src/ops_mpi.cpp:86-127 | a minimum where every other rank holds INT_MAX is the owner's value |
| ColumnMin.Column | tasks/mpi/plekhanov_d_allreduce_mine/src/ops_mpi.cpp:35-36 | column c of a row-major buffer: entry k is data[k·cols + c] |
| ColumnMin.Scanned | tasks/mpi/plekhanov_d_allreduce_mine/src/ops_mpi.cpp:33-34 | the sequential scan reads at least one row, the first, even when rows is 0 |
| ColumnMin.ColumnMinimumIsMin | tasks/mpi/plekhanov_d_allreduce_mine/src/ops_mpi.cpp:30-40 | the sequential scan computes each column's minimum |
| ColumnMin.MatchesSequential | tasks/mpi/plekhanov_d_allreduce_mine/src/ops_mpi.cpp:145-151 | over 32-bit entries the parallel minimum (from INT_MAX) equals the sequential one, and at most rows-1 entries exceed it |
| ColumnMin.Zeros | tasks/mpi/plekhanov_d_allreduce_mine/src/ops_mpi.cpp:18-19 | n zeros |
| ColumnMin.ValidationRejectsEmpty | tasks/mpi/plekhanov_d_allreduce_mine/src/ops_mpi.cpp:24-28 | validation rejects an empty input buffer (element count 0), the tests' empty matrix |
| ColumnMin.ValidationLayout | tasks/mpi/plekhanov_d_allreduce_mine/src/ops_mpi.cpp:24-28 | validation accepts any input with positive counts whose column count equals the output count |
| ColumnMin.Resize | tasks/mpi/plekhanov_d_allreduce_boost/src/ops_mpi.cpp:18-19 | resize keeps the first entries and pads with zeros |
| ColumnMin.ScanColumnMin | tasks/mpi/plekhanov_d_allreduce_mine/src/ops_mpi.cpp:33-39 | the inner loop computes the column's sequential minimum |
| ColumnMin.ScanColumnCount | tasks/mpi/plekhanov_d_allreduce_mine/src/ops_mpi.cpp:42-46 | the inner loop counts the column's entries above m |
| ColumnMin.ColumnMinima | tasks/mpi/plekhanov_d_allreduce_mine/src/ops_mpi.cpp:32-40 | every column's minimum is stored, and entries past cols are unchanged |
| ColumnMin.AddColumnCounts | tasks/mpi/plekhanov_d_allreduce_mine/src/ops_mpi.cpp:41-47 | every column's count is increased by its number of entries above the minimum |
| ColumnMin.ColumnMinTask.PreProcessing | tasks/mpi/plekhanov_d_allreduce_mine/src/ops_mpi.cpp:9-22 | the shape and input are read, and the result vectors are zero-filled to cols |
| ColumnMin.ColumnMinTask.PreProcessingResize | tasks/mpi/plekhanov_d_allreduce_boost/src/ops_mpi.cpp:10-22 | as above, but the result vectors are resized (old entries kept) |
| ColumnMin.ColumnMinTask.Run | tasks/mpi/plekhanov_d_allreduce_mine/src/ops_mpi.cpp:30-49 | each column's minimum is stored, and its count is raised by the entries above it |
| ColumnMin.ColumnMinTask.PostProcessing | tasks/mpi/plekhanov_d_allreduce_mine/src/ops_mpi.cpp:51-57 | the first cols counts are written to output 0, and the rest of the buffer is unchanged; every field it does not write keeps its value |
| ColumnMin.SequentialOutcome | tasks/mpi/plekhanov_d_allreduce_mine/src/ops_mpi.cpp:30-49 | after a run from zeroed counts, the result is the column minimum and the count is at most rows-1 |
| AllreduceMine.ColEnd | tasks/mpi/plekhanov_d_allreduce_mine/src/ops_mpi.cpp:140-143 | a rank's column block lies within the columns |
| AllreduceMine.ColBounds | tasks/mpi/plekhanov_d_allreduce_mine/src/ops_mpi.cpp:140-143 | a non-last block fits in the columns |
| AllreduceMine.ColRangesContiguous | tasks/mpi/plekhanov_d_allreduce_mine/src/ops_mpi.cpp:140-143 | blocks are adjacent, and the last ends at cols |
| AllreduceMine.ColRangesOrdered | tasks/mpi/plekhanov_d_allreduce_mine/src/ops_mpi.cpp:140-143 | blocks are in rank order |
| AllreduceMine.ColumnOwner | tasks/mpi/plekhanov_d_allreduce_mine/src/ops_mpi.cpp:140-143 | every column has exactly one owning rank |
| AllreduceMine.OwnerOf | tasks/mpi/plekhanov_d_allreduce_mine/src/ops_mpi.cpp:140-143 | every column lies in the block of some rank below the world size, the last rank taking the remainder |
| AllreduceMine.LocalMin | tasks/mpi/plekhanov_d_allreduce_mine/src/ops_mpi.cpp:145-151 | owned columns get their minimum from INT_MAX; others stay INT_MAX |
| AllreduceMine.LocalCount | tasks/mpi/plekhanov_d_allreduce_mine/src/ops_mpi.cpp:155-163 | owned columns get their count above the minima; others stay 0 |
| AllreduceMine.SubtreeBelowChildren | tasks/mpi/plekhanov_d_allreduce_mine/src/ops_mpi.cpp:93-113 | a rank's upward value is at most its own and its children's |
| AllreduceMine.RootBelowSubtree | tasks/mpi/plekhanov_d_allreduce_mine/src/ops_mpi.cpp:93-113 | the root's value is at most every rank's subtree value |
| AllreduceMine.SubtreeAttained | tasks/mpi/plekhanov_d_allreduce_mine/src/ops_mpi.cpp:93-113 | a subtree's value is some rank's own value |
| AllreduceMine.TreeRootIsMin | tasks/mpi/plekhanov_d_allreduce_mine/src/ops_mpi.cpp:86-127 | the tree's root value is the minimum over all ranks |
| AllreduceMine.CombineChildren | tasks/mpi/plekhanov_d_allreduce_mine/src/ops_mpi.cpp:96-113 | a rank's combined buffer is its subtree's minimum |
| AllreduceMine.TreeAllReduce | tasks/mpi/plekhanov_d_allreduce_mine/src/ops_mpi.cpp:86-127 | every rank ends with the element-wise minimum over all ranks |
| AllreduceMine.AllLocalMins | tasks/mpi/plekhanov_d_allreduce_mine/src/ops_mpi.cpp:145-151 | every rank's local minima over its own columns |
| AllreduceMine.AllLocalCounts | tasks/mpi/plekhanov_d_allreduce_mine/src/ops_mpi.cpp:155-163 | every rank's local counts over its own columns |
| AllreduceMine.ReducedMinima | tasks/mpi/plekhanov_d_allreduce_mine/src/ops_mpi.cpp:145-153 | the all-reduced minimum of a column is its parallel minimum |
| AllreduceMine.ReducedCounts | tasks/mpi/plekhanov_d_allreduce_mine/src/ops_mpi.cpp:155-163 | the reduced count of a column is its count above the minimum |
| AllreduceMine.MyOwnParallelTask.PreProcessing | tasks/mpi/plekhanov_d_allreduce_mine/src/ops_mpi.cpp:59-75 | the root reads the shape and input; other ranks zero-fill theirs |
| AllreduceMine.MyOwnParallelTask.Run | tasks/mpi/plekhanov_d_allreduce_mine/src/ops_mpi.cpp:129-165 | every column's minimum and count above it, for any world size |
| AllreduceMine.MyOwnParallelTask.PostProcessing | tasks/mpi/plekhanov_d_allreduce_mine/src/ops_mpi.cpp:167-175 | the root writes the counts to output 0; every field it does not write keeps its value |
| AllreduceBoost.FirstRowClosed | tasks/mpi/plekhanov_d_allreduce_boost/src/ops_mpi.cpp:96-103 | a block's first row in closed form: lambda_1 per lower rank, plus one per lower rank among the last lambda_2 |
| AllreduceBoost.FirstRowLast | tasks/mpi/plekhanov_d_allreduce_boost/src/ops_mpi.cpp:96-103 | the blocks cover all rows |
| AllreduceBoost.FirstRowBound | tasks/mpi/plekhanov_d_allreduce_boost/src/ops_mpi.cpp:96-103 | blocks start in rank order, within the rows |
| AllreduceBoost.Segment | tasks/mpi/plekhanov_d_allreduce_boost/src/ops_mpi.cpp:96-106 | a rank's stretch of a column has its block's row count |
| AllreduceBoost.Covered | tasks/mpi/plekhanov_d_allreduce_boost/src/ops_mpi.cpp:96-106 | all ranks together cover the whole column |
| AllreduceBoost.CoveredStep | tasks/mpi/plekhanov_d_allreduce_boost/src/ops_mpi.cpp:96-106 | each rank's stretch continues the lower ranks' |
| AllreduceBoost.ScatterSizes | tasks/mpi/plekhanov_d_allreduce_boost/src/ops_mpi.cpp:102-103 | the size vector gives every rank its block's element count |
| AllreduceBoost.DisplacementRows | tasks/mpi/plekhanov_d_allreduce_boost/src/ops_mpi.cpp:105-106 | rank r's displacement is its first row times cols |
| AllreduceBoost.Block | tasks/mpi/plekhanov_d_allreduce_boost/src/ops_mpi.cpp:105-106 | a rank's row block has its rows times cols elements |
| AllreduceBoost.Scatterv | tasks/mpi/plekhanov_d_allreduce_boost/src/ops_mpi.cpp:105-106 | scatterv hands rank r sizes[r] elements |
| AllreduceBoost.ScattervBlocks | tasks/mpi/plekhanov_d_allreduce_boost/src/ops_mpi.cpp:96-106 | with those sizes, scatterv hands every rank exactly its row block |
| AllreduceBoost.ColumnSnoc | tasks/mpi/plekhanov_d_allreduce_boost/src/ops_mpi.cpp:113-121 | a column of one more row gains that row's entry |
| AllreduceBoost.SliceColumn | tasks/mpi/plekhanov_d_allreduce_boost/src/ops_mpi.cpp:105-106 | a column of a sliced row range is that stretch of the whole column |
| AllreduceBoost.ColumnOfBlock | tasks/mpi/plekhanov_d_allreduce_boost/src/ops_mpi.cpp:105-121 | a column of a rank's block is the rank's segment of the column |
| AllreduceBoost.LocalMinByRows | tasks/mpi/plekhanov_d_allreduce_boost/src/ops_mpi.cpp:113-121 | every column's minimum over the block, from INT_MAX |
| AllreduceBoost.LowerByRow | tasks/mpi/plekhanov_d_allreduce_boost/src/ops_mpi.cpp:115-119 | row j lowers every column's running minimum |
| AllreduceBoost.LocalCountByRows | tasks/mpi/plekhanov_d_allreduce_boost/src/ops_mpi.cpp:123-132 | every column's count above the minima over the block |
| AllreduceBoost.CountRow | tasks/mpi/plekhanov_d_allreduce_boost/src/ops_mpi.cpp:125-131 | row j's entries above the minima are counted |
| AllreduceBoost.MinFromStart | tasks/mpi/plekhanov_d_allreduce_boost/src/ops_mpi.cpp:113-122 | a scan from a value at most INT_MAX is that value lowered by a scan from INT_MAX |
| AllreduceBoost.FoldBlockMinima | tasks/mpi/plekhanov_d_allreduce_boost/src/ops_mpi.cpp:113-122 | folding the blocks' minima in rank order gives the minimum of the rows they cover |
| AllreduceBoost.FoldBlockCounts | tasks/mpi/plekhanov_d_allreduce_boost/src/ops_mpi.cpp:123-133 | summing the blocks' counts gives the count over the rows they cover |
| AllreduceBoost.AllLocalMins | tasks/mpi/plekhanov_d_allreduce_boost/src/ops_mpi.cpp:105-121 | every rank's minima over its scattered block |
| AllreduceBoost.AllLocalCounts | tasks/mpi/plekhanov_d_allreduce_boost/src/ops_mpi.cpp:123-132 | every rank's counts over its scattered block |
| AllreduceBoost.ReducedMinima | tasks/mpi/plekhanov_d_allreduce_boost/src/ops_mpi.cpp:113-122 | the all-reduced minimum of a column is its minimum over all rows |
| AllreduceBoost.ReducedCounts | tasks/mpi/plekhanov_d_allreduce_boost/src/ops_mpi.cpp:123-133 | the all-reduced count of a column is its count over all rows |
| AllreduceBoost.BoostParallelTask.PreProcessing | tasks/mpi/plekhanov_d_allreduce_boost/src/ops_mpi.cpp:62-79 | the root reads the shape and input; other ranks size theirs |
| AllreduceBoost.BoostParallelTask.Run | tasks/mpi/plekhanov_d_allreduce_boost/src/ops_mpi.cpp:90-135 | every column's count above its parallel minimum, for any world size; the root keeps block 0 |
| AllreduceBoost.BoostParallelTask.PostProcessing | tasks/mpi/plekhanov_d_allreduce_boost/src/ops_mpi.cpp:137-145 | the root writes the counts to output 0; every field it does not write keeps its value |
| RowwiseSeq.ValidationInnerDimension | tasks/seq/golovkin_rowwise_matrix_partitioning/src/ops_seq.cpp:16-33 | validation accepts exactly when A's first row is as long as B is tall, and rejects an empty A, a null B or no output |
| RowwiseSeq.ValidationExamples | tasks/seq/golovkin_rowwise_matrix_partitioning/func_tests/main.cpp:119-176 | the unit tests' rejected inputs |
| RowwiseSeq.ResizeRows | tasks/seq/golovkin_rowwise_matrix_partitioning/src/ops_seq.cpp:45-47 | resize keeps existing rows and pads with the fill row |
| RowwiseSeq.PartialStep | tasks/seq/golovkin_rowwise_matrix_partitioning/src/ops_seq.cpp:60-62 | one step of the k loop adds a[i][k]·b[k][j] |
| RowwiseSeq.AccumulateEntry | tasks/seq/golovkin_rowwise_matrix_partitioning/src/ops_seq.cpp:60-62 | entry j gains entry (i, j) of A·B; the rest of the row is unchanged |
| RowwiseSeq.AccumulateRow | tasks/seq/golovkin_rowwise_matrix_partitioning/src/ops_seq.cpp:59-63 | row i gains row i of A·B in its first |B[0]| entries |
| RowwiseSeq.Multiplier | tasks/seq/golovkin_rowwise_matrix_partitioning/src/ops_seq.cpp:51-66 | A·B is added onto every row of the result |
| RowwiseSeq.Product | tasks/seq/golovkin_rowwise_matrix_partitioning/src/ops_seq.cpp:51-66 | A·B has |A| rows of |B[0]| entries |
| RowwiseSeq.AddedToZeroIsProduct | tasks/seq/golovkin_rowwise_matrix_partitioning/src/ops_seq.cpp:45-66 | added onto a zero matrix of the product's shape, the result is A·B |
| RowwiseSeq.ResizeZeroRows | tasks/seq/golovkin_rowwise_matrix_partitioning/src/ops_seq.cpp:45-47 | resizing zero rows with zero rows gives the zero matrix |
| RowwiseSeq.ProductIdentity | tasks/seq/golovkin_rowwise_matrix_partitioning/func_tests/main.cpp:35-57 | times an identity matrix, A is unchanged |
| RowwiseSeq.DotOnes | tasks/seq/golovkin_rowwise_matrix_partitioning/func_tests/main.cpp:96-118 | two all-ones vectors have their length as dot product |
| RowwiseSeq.ProductOnes | tasks/seq/golovkin_rowwise_matrix_partitioning/func_tests/main.cpp:96-118 | all-ones matrices multiply to the inner dimension everywhere |
| RowwiseSeq.SquareExample | tasks/seq/golovkin_rowwise_matrix_partitioning/func_tests/main.cpp:12-34 | the square test's product, written out |
| RowwiseSeq.MatrixMultiplicationTask.PreProcessing | tasks/seq/golovkin_rowwise_matrix_partitioning/src/ops_seq.cpp:35-49 | with all pointers present, the output is resized to |A| rows of |B[0]| zeros; otherwise it fails |
| RowwiseSeq.MatrixMultiplicationTask.Run | tasks/seq/golovkin_rowwise_matrix_partitioning/src/ops_seq.cpp:68-79 | with all pointers present, A·B is added onto the output; otherwise it fails |
| RowwiseSeq.MatrixMultiplicationTask.PostProcessing | tasks/seq/golovkin_rowwise_matrix_partitioning/src/ops_seq.cpp:81-97 | succeeds iff the class's own result_ member is non-empty |
| RowwiseSeq.MatrixMultiplicationTask.PostProcessingOutput | tasks/seq/golovkin_rowwise_matrix_partitioning/src/ops_seq.cpp:81-97 | succeeds iff the output matrix is non-empty |
| RowwiseSeq.AsWrittenLifecycle | tasks/seq/golovkin_rowwise_matrix_partitioning/src/ops_seq.cpp:81-97 | validation, pre_processing and run succeed and compute A·B, yet post_processing fails |
| RowwiseSeq.CorrectedLifecycle | tasks/seq/golovkin_rowwise_matrix_partitioning/src/ops_seq.cpp:81-97 | with post_processing reading the output, all four stages succeed and the output is A·B |
| RowwiseMpi.ReadDims | tasks/mpi/golovkin_rowwise_matrix_partitioning/src/ops_mpi.cpp:12-15 | the four dimensions are the int casts of inputs_count[0..3] |
| RowwiseMpi.ValidationExamples | tasks/mpi/golovkin_rowwise_matrix_partitioning/src/ops_mpi.cpp:16-18 | mismatched inner dimensions and a negative cast are rejected; a 2×3 by 3×2 is accepted |
| RowwiseMpi.RankFirstRowClosed | tasks/mpi/golovkin_rowwise_matrix_partitioning/src/ops_mpi.cpp:68-79 | a block's first row in closed form |
| RowwiseMpi.RankFirstRowLast | tasks/mpi/golovkin_rowwise_matrix_partitioning/src/ops_mpi.cpp:68-79 | the blocks cover exactly the rows |
| RowwiseMpi.RankFirstRowBound | tasks/mpi/golovkin_rowwise_matrix_partitioning/src/ops_mpi.cpp:68-79 | blocks start in rank order within the rows |
| RowwiseMpi.RankRowsBalanced | tasks/mpi/golovkin_rowwise_matrix_partitioning/src/ops_mpi.cpp:68-79 | row counts differ by at most one, and decrease with rank |
| RowwiseMpi.Counts | tasks/mpi/golovkin_rowwise_matrix_partitioning/src/ops_mpi.cpp:65-79 | counts are the ranks' rows times width; displacements are the prefix sums |
| RowwiseMpi.DisplacementIsFirstRow | tasks/mpi/golovkin_rowwise_matrix_partitioning/src/ops_mpi.cpp:71-79 | rank r's displacement is its first row times width |
| RowwiseMpi.CountsTotal | tasks/mpi/golovkin_rowwise_matrix_partitioning/src/ops_mpi.cpp:71-79 | the counts add up to the whole matrix |
| RowwiseMpi.LocalRows | tasks/mpi/golovkin_rowwise_matrix_partitioning/src/ops_mpi.cpp:83 | dividing a rank's count by cols_A gives back its rows |
| RowwiseMpi.ProductRow | tasks/mpi/golovkin_rowwise_matrix_partitioning/src/ops_mpi.cpp:87-91 | a product row has cols_B entries |
| RowwiseMpi.ProductRows | tasks/mpi/golovkin_rowwise_matrix_partitioning/src/ops_mpi.cpp:84-92 | rows lo..hi-1 of the product hold (hi-lo)·cols_B entries |
| RowwiseMpi.ProductRowsEntry | tasks/mpi/golovkin_rowwise_matrix_partitioning/src/ops_mpi.cpp:89 | entry (i, j) of the flat product is row i of A dotted with column j of B |
| RowwiseMpi.ProductRowsJoin | tasks/mpi/golovkin_rowwise_matrix_partitioning/src/ops_mpi.cpp:112-113 | consecutive row stretches join |
| RowwiseMpi.ProductRowsZero | tasks/mpi/golovkin_rowwise_matrix_partitioning/perf_tests/main.cpp:17-75 | a zero B gives a zero product |
| RowwiseMpi.RowOfShifted | tasks/mpi/golovkin_rowwise_matrix_partitioning/src/ops_mpi.cpp:80-81 | row i of a scattered block is row lo+i of A |
| RowwiseMpi.ShiftedRows | tasks/mpi/golovkin_rowwise_matrix_partitioning/src/ops_mpi.cpp:80-92 | a block holding A's rows lo.. yields those rows of the product |
| RowwiseMpi.BlockProduct | tasks/mpi/golovkin_rowwise_matrix_partitioning/src/ops_mpi.cpp:80-92 | a scattered block's product is the matching stretch of the full product |
| RowwiseMpi.AccumulateFlatEntry | tasks/mpi/golovkin_rowwise_matrix_partitioning/src/ops_mpi.cpp:88-90 | the k loop adds the dot product into one entry and leaves the rest |
| RowwiseMpi.AccumulateFlatRow | tasks/mpi/golovkin_rowwise_matrix_partitioning/src/ops_mpi.cpp:87-91 | the j loop adds a product row into its place |
| RowwiseMpi.LocalProduct | tasks/mpi/golovkin_rowwise_matrix_partitioning/src/ops_mpi.cpp:84-92 | the zeroed then accumulated local_res is the block's product |
| RowwiseMpi.GatherProduct | tasks/mpi/golovkin_rowwise_matrix_partitioning/src/ops_mpi.cpp:65-113 | the gathered result is the whole product A·B, for any world size |
| RowwiseMpi.MpiMatrixTask.Validation | tasks/mpi/golovkin_rowwise_matrix_partitioning/src/ops_mpi.cpp:7-22 | the root checks the dimensions only under the guard `size < 5 \|\| rank >= 4`: with fewer than five ranks ok holds iff the dimensions agree and are positive; with five or more the root reads nothing and broadcasts true |
| RowwiseMpi.MpiMatrixTask.ValidationWork | tasks/mpi/golovkin_rowwise_matrix_partitioning/src/ops_mpi.cpp:12-18 | the dimensions are read, and ok holds iff they agree and are positive |
| RowwiseMpi.MpiMatrixTask.PreProcessing | tasks/mpi/golovkin_rowwise_matrix_partitioning/src/ops_mpi.cpp:24-36 | with fewer than five ranks the root copies A and B at their sizes and has no result yet; with five or more it copies nothing and its state is unchanged |
| RowwiseMpi.MpiMatrixTask.PreProcessingWork | tasks/mpi/golovkin_rowwise_matrix_partitioning/src/ops_mpi.cpp:27-33 | A and B are copied at their sizes; there is no result yet |
| RowwiseMpi.MpiMatrixTask.Run | tasks/mpi/golovkin_rowwise_matrix_partitioning/src/ops_mpi.cpp:38-122 | result is A·B |
| RowwiseMpi.MpiMatrixTask.PostProcessing | tasks/mpi/golovkin_rowwise_matrix_partitioning/src/ops_mpi.cpp:124-130 | with fewer than five ranks the root copies the product into output 0 and leaves the rest of that buffer; with five or more it writes nothing |
| RowwiseMpi.MpiMatrixTask.PostProcessingWork | tasks/mpi/golovkin_rowwise_matrix_partitioning/src/ops_mpi.cpp:127 | the product is copied into output 0; the rest of that buffer is unchanged |
| RowwiseMpi.Lifecycle | tasks/mpi/golovkin_rowwise_matrix_partitioning/func_tests/main.cpp:248-293 | on accepted dimensions in a world of 1 to 4 ranks, the four stages as written leave A·B at the front of the output |
| RowwiseMpi.AsWrittenAcceptsMismatch | tasks/mpi/golovkin_rowwise_matrix_partitioning/func_tests/main.cpp:34-66 | with five or more ranks, validation accepts the test's 2×3 by 7×4 operands, which the dimension check rejects |
| RowwiseMpi.CorrectedRejectsMismatch | tasks/mpi/golovkin_rowwise_matrix_partitioning/src/ops_mpi.cpp:7-22 | with the guard keeping the root, validation rejects those operands in every world |
| RowwiseMpi.CorrectedLifecycle | tasks/mpi/golovkin_rowwise_matrix_partitioning/src/ops_mpi.cpp:7-130 | with the guard keeping the root, the four stages leave A·B at the front of the output for every world size |
| Torus.Isqrt | tasks/mpi/mezhuev_m_lattice_torus/src/mpi.cpp:51-55 | the integer square root: r² ≤ n < (r+1)² |
| Torus.IsqrtUnique | tasks/mpi/mezhuev_m_lattice_torus/src/mpi.cpp:51-55 | that root is the only such r |
| Torus.SquareIff | tasks/mpi/mezhuev_m_lattice_torus/src/mpi.cpp:51-55 | the grid check passes iff the world size is a perfect square |
| Torus.Around | tasks/mpi/mezhuev_m_lattice_torus/src/mpi.cpp:67-83 | every rank has four neighbours: left, right, up, down |
| Torus.NeighboursInRange | tasks/mpi/mezhuev_m_lattice_torus/src/mpi.cpp:71-81 | all four neighbours are ranks of the grid |
| Torus.NeighboursKeepLines | tasks/mpi/mezhuev_m_lattice_torus/src/mpi.cpp:71-81 | left and right stay in the row, cyclically one column over; up and down stay in the column |
| Torus.NeighbourCells | tasks/mpi/mezhuev_m_lattice_torus/src/mpi.cpp:71-81 | the neighbours of cell (x, y) are the cyclically adjacent cells |
| Torus.RowInverse | tasks/mpi/mezhuev_m_lattice_torus/src/mpi.cpp:75-76 | the right cell's left neighbour, and the left cell's right neighbour, is the cell itself |
| Torus.ColumnInverse | tasks/mpi/mezhuev_m_lattice_torus/src/mpi.cpp:77-78 | likewise for up and down |
| Torus.NeighboursInverse | tasks/mpi/mezhuev_m_lattice_torus/src/mpi.cpp:71-81 | left/right and up/down are inverse, so every send has a matching receive |
| Torus.CombinedOrder | tasks/mpi/mezhuev_m_lattice_torus/src/mpi.cpp:91-103 | the combined buffer is left's, right's, up's and down's buffer in that order |
| Torus.CombinedUniform | tasks/mpi/mezhuev_m_lattice_torus/src/mpi.cpp:88-89 | with equal-sized sends it holds 4·n entries |
| Torus.Exchange | tasks/mpi/mezhuev_m_lattice_torus/src/mpi.cpp:91-103 | it succeeds iff every neighbour is a rank, and then returns the combined buffer |
| Torus.Scan | tasks/mpi/mezhuev_m_lattice_torus/src/mpi.cpp:21-45 | the buffer loop reports whether every listed buffer is present with a positive count, and the counts' total |
| Torus.Written | tasks/mpi/mezhuev_m_lattice_torus/src/mpi.cpp:105-106 | the copy overwrites the front of output 0; nothing else changes |
| Torus.RunAcceptsIff | tasks/mpi/mezhuev_m_lattice_torus/src/mpi.cpp:105-109 | on a square world with n-entry sends, run succeeds iff 4·n ≤ outputs_count[0] |
| Torus.Clipped | tasks/mpi/mezhuev_m_lattice_torus/src/mpi.cpp:105-109 | a prefix of the combined buffer: n entries, or all of them if fewer |
| Torus.ValidatedRunFails | tasks/mpi/mezhuev_m_lattice_torus/src/mpi.cpp:47-49 | a single-buffer task that validation accepts always fails run |
| Torus.CorrectedLifecycle | tasks/mpi/mezhuev_m_lattice_torus/src/mpi.cpp:64-133 | with the clipped copy, a validated task with non-zero data passes run and post_processing |
| Torus.CombinedNonZero | tasks/mpi/mezhuev_m_lattice_torus/src/mpi.cpp:91-103 | non-zero sends combine into a non-zero buffer |
| Torus.WrittenNonZero | tasks/mpi/mezhuev_m_lattice_torus/src/mpi.cpp:115-133 | an output filled with non-zero entries passes the output scan |
| Torus.ValidationExamples | tasks/mpi/mezhuev_m_lattice_torus/func_tests/main.cpp:32-49 | matching totals on 4 ranks pass; mismatched totals, 6 ranks or a zero count fail |
| Torus.GridTorusTopologyParallel.PreProcessing | tasks/mpi/mezhuev_m_lattice_torus/src/mpi.cpp:10 | always succeeds |
| Torus.GridTorusTopologyParallel.Validation | tasks/mpi/mezhuev_m_lattice_torus/src/mpi.cpp:12-62 | ok iff all four lists are non-empty, every buffer is present with a positive count, input and output totals agree, and the world is a square |
| Torus.GridTorusTopologyParallel.Run | tasks/mpi/mezhuev_m_lattice_torus/src/mpi.cpp:64-113 | succeeds iff the neighbours are ranks and the output holds the combined buffer, which is then copied in; otherwise nothing changes |
| Torus.GridTorusTopologyParallel.CorrectedRun | tasks/mpi/mezhuev_m_lattice_torus/src/mpi.cpp:64-113 | the neighbours' buffers, clipped to outputs_count[0], are copied in |
| Torus.GridTorusTopologyParallel.PostProcessing | tasks/mpi/mezhuev_m_lattice_torus/src/mpi.cpp:115-133 | ok iff every output buffer is present and none of its counted entries is zero |
| LineTopology.ValidationExamples | tasks/mpi/lavrentyev_a_line_topology/func_tests/main.cpp:69-167 | the tests' validation cases, including a count that casts to -50 |
| LineTopology.InitialPath | tasks/mpi/lavrentyev_a_line_topology/src/ops_mpi.cpp:75-83 | the start rank's path: its rank at entry 0, -1 elsewhere |
| LineTopology.Chain | tasks/mpi/lavrentyev_a_line_topology/src/ops_mpi.cpp:79-108 | the message after rank k keeps the path's length |
| LineTopology.ChainShape | tasks/mpi/lavrentyev_a_line_topology/src/ops_mpi.cpp:79-108 | as written, the data arrives unchanged; entry 0 is start, entry i is i for start < i ≤ k, and the rest stay -1 |
| LineTopology.ChainFromZero | tasks/mpi/lavrentyev_a_line_topology/src/ops_mpi.cpp:79-108 | from rank 0 the path is 0, 1, …, k, then -1s |
| LineTopology.ChainMissesSecondRank | tasks/mpi/lavrentyev_a_line_topology/src/ops_mpi.cpp:93 | for a start above 0 and a longer line, entry 1 stays -1 instead of start+1 |
| LineTopology.ChainExample | tasks/mpi/lavrentyev_a_line_topology/src/ops_mpi.cpp:93 | start 1, end 2, three ranks: the path is [1, -1, 2] |
| LineTopology.CorrectedChain | tasks/mpi/lavrentyev_a_line_topology/src/ops_mpi.cpp:93 | the corrected message keeps the path's length |
| LineTopology.CorrectedChainShape | tasks/mpi/lavrentyev_a_line_topology/func_tests/main.cpp:63-65 | corrected, entry i is start+i up to the end rank and -1 after it, as the test expects |
| LineTopology.CorrectedFromZero | tasks/mpi/lavrentyev_a_line_topology/src/ops_mpi.cpp:93 | from rank 0 the correction changes nothing |
| LineTopology.Copied | tasks/mpi/lavrentyev_a_line_topology/src/ops_mpi.cpp:118-126 | copying into a buffer overwrites its front; a null buffer stays null |
| LineTopology.TestMPITaskParallel.Validation | tasks/mpi/lavrentyev_a_line_topology/src/ops_mpi.cpp:29-57 | ok iff there are three parameters, start and end are ranks, n > 0, the start rank has input and the end rank has two outputs |
| LineTopology.TestMPITaskParallel.PreProcessing | tasks/mpi/lavrentyev_a_line_topology/src/ops_mpi.cpp:7-27 | the start rank takes n inputs and the path [start]; a distinct end rank zero-fills data and path |
| LineTopology.TestMPITaskParallel.Relay | tasks/mpi/lavrentyev_a_line_topology/src/ops_mpi.cpp:79-108 | the start rank sends a fresh path; a later rank marks itself, keeps the message at the end rank, and forwards it otherwise |
| LineTopology.TestMPITaskParallel.Run | tasks/mpi/lavrentyev_a_line_topology/src/ops_mpi.cpp:59-112 | off the line, or with start = end, nothing happens; on it, rank k marks entry k; every field it does not write keeps its value |
| LineTopology.TestMPITaskParallel.CorrectedRun | tasks/mpi/lavrentyev_a_line_topology/src/ops_mpi.cpp:59-112 | rank k marks entry k - start; every field it does not write keeps its value |
| LineTopology.RunLine | tasks/mpi/lavrentyev_a_line_topology/src/ops_mpi.cpp:58-112 | run on every rank in order, each handed its predecessor's message, leaves the start rank's data on the end rank with the path Chain describes |
| LineTopology.CorrectedRunLine | tasks/mpi/lavrentyev_a_line_topology/src/ops_mpi.cpp:58-112 | the corrected run on every rank in order leaves the start rank's data on the end rank with the path CorrectedChain describes |
| LineTopology.TestMPITaskParallel.PostProcessing | tasks/mpi/lavrentyev_a_line_topology/src/ops_mpi.cpp:113-129 | the end rank copies data and path into outputs 0 and 1, skipping null buffers; other ranks change nothing |

## Left out

- The `internal_order_test` stage-order checks, logging, and the world's
  barriers are not modelled.
- MPI deadlock, message tags and non-blocking requests are not modelled:
  messages are delivered values, in rank order.
- Matrix entries are `double` in the CRS and row-wise tasks. They are modelled
  as exact integers, so the rounding of sums is not modelled. The 1e-9
  clamp in the row-wise post_processing is dropped (it touches only an
  unused member).
- The torus buffers are bytes (`uint8_t`). They are modelled as integers.
  `std::sqrt` followed by a cast is modelled as an exact integer square root.
- The torus `alignof(uint8_t)` checks always pass, so they are not modelled.
- A null `taskData` pointer is not modelled (every task's data is present).
- Torus validation is modelled on rank 0. The other ranks report true, so the
  logical-and all-reduce gives rank 0's verdict.
- A failed torus send or receive (the `boost::mpi::exception` branch) shows up
  only as a neighbour outside the world. A rank that sends to itself, on a
  1×1 torus, is treated as delivering its own buffer.
- RowwiseSeq.MatrixMultiplicationTask.Run: requires, when all pointers are
  present, that every row of A is as long as A's first row, that B's first
  |A[0]| rows are as long as B's first row, and that the output has |A| rows
  of that length. Validation checks only that A's first row is as long as B
  is tall. A ragged A such as [[1, 2], [3]] with B = [[1], [2]] passes it,
  and multiplier then reads past the end of a row (undefined behaviour).
  Those inputs are excluded, not modelled.
- RowwiseSeq.MatrixMultiplicationTask.PreProcessing: requires B to have a row
  when all pointers are present. On an empty B the source's `matrixB->at(0)`
  throws std::out_of_range. The model has no exception, so that input is
  excluded.
- The golovkin MPI task does the work of validation, pre_processing and
  post_processing only under the guard `world.size() < 5 || world.rank() >= 4`.
  The class models rank 0, the root of the broadcasts and the gather, which
  passes the guard only in worlds of fewer than five ranks. Ranks 1 and up are
  not modelled as objects: their verdict is the root's broadcast, and their
  operands come from run's broadcasts.
- RowwiseMpi.Lifecycle: stated for worlds of 1 to 4 ranks. With five or more,
  the root skips pre_processing, so run would read dimensions and buffers
  that were never set. The model has no value for that state.
  RowwiseMpi.CorrectedLifecycle covers every world size for the corrected guard.
- ColumnMin.ColumnMinTask.Run: requires `Scanned(rowCount) * columnCount`
  input entries. Validation checks only that the counts are positive, so a
  task whose inputs_count[0] is smaller passes validation, and run then reads
  past the copied input. That out-of-bounds read is excluded, not modelled.
- AllreduceMine.MyOwnParallelTask.Run: requires `rowCount * columnCount`
  input entries, for the same reason. Validation does not check this.
- AllreduceBoost.BoostParallelTask.Run: requires `rowCount * columnCount`
  input entries, for the same reason. Validation does not check this.
- Crs.WellFormed: demands row_ptr[0] == 0, non-decreasing row pointers that
  end at the value count, and column indices in range. Neither CRS
  validation checks these. Operands that break them, which the kernel would
  read out of bounds, are excluded by the requires of the methods that take
  operands.
- CRS `max_element` over an empty column-index array is undefined behaviour.
  It is modelled as giving column count 0, which reproduces the
  zero-density test.
- The `int` overflow of counts and products in the CRS and row-wise index
  arithmetic is not modelled. Only the unsigned-to-int cast of counts
  (`Task.ToInt32`) is.
- In ColumnMin, entries are 32-bit only where `MatchesSequential` needs it.
  Counts are unbounded.
- In post_processing, the source reinterprets output buffers as raw pointers.
  Writes into them are modelled as replacing a buffer's leading items. The
  source would write past a buffer that is too short; every such method
  requires the buffer to be long enough instead.
- LineTopology.TestMPITaskParallel.PostProcessing: requires the path output to
  hold `size` entries. The test's buffer holds end - start + 1, so with
  start > 0 or end < size - 1 the source copies past its end.
- LineTopology: a missing second output buffer on the end rank is read as a
  null buffer, where the source would index past the vector.
- CrsMpi.ValidationCompatible: validation implies compatibility, but not the
  converse. The check compares the derived column count with B's rows, so
  compatible operands whose largest column index is below B's last row are
  rejected.
- The root alone holds the parallel tasks' state. The other ranks' copies
  come from broadcasts and are equal to the root's.
- A non-root rank's pre_processing input resize is modelled only by its size.
- RowwiseMpi.Expected is a helper for Lifecycle, not a source operation.

## Findings

| source | as written | input that shows it | evidently intended | confidence | as-written member | corrected member |
|---|---|---|---|---|---|---|
| tasks/seq/borisov_s_crs_mul/src/ops_seq.cpp:11-30 | validation checks buffer counts only, not that A's column count equals B's row count | A = [[1, 1]] (1×2), B = [[1]] (1×1): validation accepts, and run reads B_row_ptr[2] past the end | reject mismatched shapes, as the MPI variant does at lines 61-69 of its ops_mpi.cpp | not executed; high | CrsSeq.ValidationAcceptsMismatch | CrsSeq.ValidationCheckedRejectsMismatch |
| tasks/seq/golovkin_rowwise_matrix_partitioning/src/ops_seq.cpp:81-97 | post_processing tests the class member `result_`, which no stage ever fills, so it always returns false | any valid pair, e.g. the 3×3 square test: the first three stages succeed, post_processing returns false | inspect the output matrix that run filled | not executed; high | RowwiseSeq.AsWrittenLifecycle | RowwiseSeq.CorrectedLifecycle |
| tasks/mpi/mezhuev_m_lattice_torus/src/mpi.cpp:47-49 | validation demands equal input and output totals, but run needs room for four neighbours' buffers (lines 105-109) | 4 ranks, inputs_count [4], outputs_count [4]: validation accepts, and run fails because 16 > 4 | validated tasks run; the model copies the first outputs_count[0] received entries | not executed; medium (the intended fix is unclear) | Torus.ValidatedRunFails | Torus.CorrectedLifecycle |
| tasks/mpi/lavrentyev_a_line_topology/src/ops_mpi.cpp:93 | each rank writes its rank at path index `rank` | start 1, end 2, 3 ranks: path [1, -1, 2] | path[i] = start + i, as the test at func_tests/main.cpp:63-65 expects | not executed; high | LineTopology.ChainMissesSecondRank | LineTopology.CorrectedChainShape |
| tasks/mpi/golovkin_rowwise_matrix_partitioning/src/ops_mpi.cpp:11 | validation, pre_processing and post_processing work only under `world.size() < 5 \|\| world.rank() >= 4`, which is false on rank 0, the broadcast root, once there are five ranks | 5 ranks, test cant_mult_matrix_wrong_sizes (tasks/mpi/golovkin_rowwise_matrix_partitioning/func_tests/main.cpp:34-66): the root skips the check and broadcasts true whatever its task data holds, even the 2×3 by 7×4 operands, where the test expects false | the root always does the work; the model keeps rank 0 in the guard | not executed; high | RowwiseMpi.AsWrittenAcceptsMismatch | RowwiseMpi.CorrectedRejectsMismatch |
