/**
 * The MPI task of golovkin_rowwise_matrix_partitioning: A (rows_A × cols_A)
 * and B (rows_B × cols_B) are flat row-major buffers. `run` splits A's rows
 * over the ranks, the first rows_A % size ranks taking one row more,
 * scatters the blocks with scatterv, lets every rank multiply its block by
 * B, and gathers the blocks of the product with gatherv.
 *
 * The world of `size` ranks is modelled as a loop over r = 0 .. size - 1;
 * the broadcasts are identities and scatterv/gatherv become slices and
 * concatenation at the displacements the task computes.
 */
module RowwiseMpi {
  import opened Task
  import Dense
  import ColumnMin

  datatype Dims = Dims(rowsA: int, colsA: int, rowsB: int, colsB: int)

  /** The four dimensions as `validation` reads them from inputs_count[0 .. 3]. */
  function ReadDims(td: TaskData): (d: Dims)
    requires |td.inputsCount| >= 4
    ensures d.rowsA == ToInt32(td.inputsCount[0]) && d.colsA == ToInt32(td.inputsCount[1])
    ensures d.rowsB == ToInt32(td.inputsCount[2]) && d.colsB == ToInt32(td.inputsCount[3])
  {
    Dims(ToInt32(td.inputsCount[0]), ToInt32(td.inputsCount[1]), ToInt32(td.inputsCount[2]), ToInt32(td.inputsCount[3]))
  }

  /** `validation`'s verdict: the inner dimensions agree and every dimension is positive. */
  predicate Accepts(d: Dims)
  {
    !(d.colsA != d.rowsB || d.rowsA <= 0 || d.colsA <= 0 || d.rowsB <= 0 || d.colsB <= 0)
  }

  /**
   * The unit tests' verdicts: 2×3 · 7×4 and 3×2 · 3×3 are rejected, a row
   * count of -3 (stored unsigned) is rejected, and 2×3 · 3×2 is accepted.
   */
  lemma ValidationExamples(inputs: seq<Buffer>, outputs: seq<Buffer>, outCount: seq<nat>)
    ensures !Accepts(ReadDims(TaskData(inputs, [2, 3, 7, 4], outputs, outCount)))
    ensures !Accepts(ReadDims(TaskData(inputs, [3, 2, 3, 3], outputs, outCount)))
    ensures !Accepts(ReadDims(TaskData(inputs, [0x1_0000_0000 - 3, 3, 3, 3], outputs, outCount)))
    ensures Accepts(ReadDims(TaskData(inputs, [2, 3, 3, 2], outputs, outCount)))
  {
    assert ToInt32(0x1_0000_0000 - 3) == -3;
  }

  /** Rows of rank r: rows / size, plus one for the first rows % size ranks. */
  function RankRows(r: nat, size: nat, rows: nat): nat
    requires 1 <= size
  {
    rows / size + (if r < rows % size then 1 else 0)
  }

  /** The first row of rank r: the rows of all lower ranks. */
  function RankFirstRow(r: nat, size: nat, rows: nat): nat
    requires 1 <= size
  {
    if r == 0 then 0 else RankFirstRow(r - 1, size, rows) + RankRows(r - 1, size, rows)
  }

  /** In closed form: rows / size rows per lower rank, plus one per lower rank below rows % size. */
  lemma {:induction false} RankFirstRowClosed(r: nat, size: nat, rows: nat)
    requires 1 <= size
    ensures RankFirstRow(r, size, rows) == r * (rows / size) + (if r < rows % size then r else rows % size)
    decreases r
  {
    if r > 0 {
      RankFirstRowClosed(r - 1, size, rows);
      Dense.MulDistrib(r - 1, 1, rows / size);
    }
  }

  /** The blocks of all ranks cover exactly the rows. */
  lemma RankFirstRowLast(size: nat, rows: nat)
    requires 1 <= size
    ensures RankFirstRow(size, size, rows) == rows
  {
    RankFirstRowClosed(size, size, rows);
    assert rows == size * (rows / size) + rows % size;
  }

  /** Blocks start in rank order, none past the last row. */
  lemma {:induction false} RankFirstRowBound(r: nat, s: nat, size: nat, rows: nat)
    requires 1 <= size && r <= s <= size
    ensures RankFirstRow(r, size, rows) <= RankFirstRow(s, size, rows) <= rows
    decreases size - r
  {
    if r < s {
      RankFirstRowBound(r + 1, s, size, rows);
    } else if s < size {
      RankFirstRowBound(s + 1, s + 1, size, rows);
    } else {
      RankFirstRowLast(size, rows);
    }
  }

  /** No two ranks' row counts differ by more than one. */
  lemma RankRowsBalanced(r: nat, s: nat, size: nat, rows: nat)
    requires 1 <= size && r < size && s < size
    ensures RankRows(r, size, rows) <= RankRows(s, size, rows) + 1
    ensures r <= s ==> RankRows(s, size, rows) <= RankRows(r, size, rows)
  {
  }

  /**
   * The `counter_send`/`displs` loop (and, with cols_B, the
   * `recvcounts`/`recvdispls` loop): rank r's count is its rows times
   * `width`, and `set_zero` makes every displacement the sum of the
   * counts before it.
   */
  method Counts(size: nat, rows: nat, width: nat) returns (counts: seq<int>, displs: seq<int>)
    requires 1 <= size
    ensures |counts| == size && |displs| == size
    ensures forall r :: 0 <= r < size ==> counts[r] == RankRows(r, size, rows) * width
    ensures forall r :: 0 <= r < size ==> displs[r] == ColumnMin.Sum(counts[..r])
  {
    counts, displs := seq(size, _ => 0), seq(size, _ => 0);
    var rowsPerProc, rowsSize := rows / size, rows % size;
    var setZero := 0;
    var i := 0;
    while i < size
      invariant 0 <= i <= size && |counts| == size && |displs| == size
      invariant forall r :: 0 <= r < i ==> counts[r] == RankRows(r, size, rows) * width
      invariant forall r :: 0 <= r < i ==> displs[r] == ColumnMin.Sum(counts[..r])
      invariant setZero == ColumnMin.Sum(counts[..i])
    {
      if i < rowsSize {
        counts := counts[i := (rowsPerProc + 1) * width];
      } else {
        counts := counts[i := rowsPerProc * width];
      }
      displs := displs[i := setZero];
      assert counts[..i + 1][..i] == counts[..i];
      setZero := setZero + counts[i];
      i := i + 1;
      assert forall r :: 0 <= r < i ==> counts[..r] == counts[..i][..r];
    }
  }

  /** With the counts Counts makes, rank r's displacement is its first row times `width`. */
  lemma {:induction false} DisplacementIsFirstRow(counts: seq<int>, size: nat, rows: nat, width: nat, r: nat)
    requires 1 <= size && r <= size && |counts| == size
    requires forall k :: 0 <= k < size ==> counts[k] == RankRows(k, size, rows) * width
    ensures ColumnMin.Sum(counts[..r]) == RankFirstRow(r, size, rows) * width
    decreases r
  {
    if r > 0 {
      DisplacementIsFirstRow(counts, size, rows, width, r - 1);
      assert counts[..r][..r - 1] == counts[..r - 1];
      Dense.MulDistrib(RankFirstRow(r - 1, size, rows), RankRows(r - 1, size, rows), width);
    }
  }

  /** The counts add up to the whole matrix: rows * width elements. */
  lemma CountsTotal(counts: seq<int>, size: nat, rows: nat, width: nat)
    requires 1 <= size && |counts| == size
    requires forall k :: 0 <= k < size ==> counts[k] == RankRows(k, size, rows) * width
    ensures ColumnMin.Sum(counts) == rows * width
  {
    DisplacementIsFirstRow(counts, size, rows, width, size);
    RankFirstRowLast(size, rows);
    assert counts[..size] == counts;
  }

  /** `local_rows = counter_send[rank] / cols_A` recovers the rank's row count. */
  lemma LocalRows(counts: seq<int>, size: nat, rows: nat, cols: nat, r: nat)
    requires 1 <= size && r < size && |counts| == size && 0 < cols
    requires forall k :: 0 <= k < size ==> counts[k] == RankRows(k, size, rows) * cols
    ensures counts[r] / cols == RankRows(r, size, rows)
  {
    Dense.MulDiv(RankRows(r, size, rows), cols);
  }

  /** Row i of the product of flat matrices: entry j is row i of A dotted with column j of B. */
  function ProductRow(a: seq<int>, b: seq<int>, colsA: nat, colsB: nat, i: nat): (row: seq<int>)
    requires (i + 1) * colsA <= |a| && colsA * colsB <= |b|
    ensures |row| == colsB
  {
    seq(colsB, j requires 0 <= j < colsB => Dense.Dot(Dense.FlatRow(a, colsA, i), Dense.FlatColumn(b, colsB, j, colsA)))
  }

  /** Rows lo .. hi - 1 of the product, row-major. */
  function ProductRows(a: seq<int>, b: seq<int>, colsA: nat, colsB: nat, lo: nat, hi: nat): (s: seq<int>)
    requires lo <= hi && hi * colsA <= |a| && colsA * colsB <= |b|
    ensures |s| == (hi - lo) * colsB
    decreases hi - lo
  {
    if lo == hi then []
    else
      Dense.MulMono(hi - 1, hi, colsA);
      Dense.MulDistrib(hi - 1 - lo, 1, colsB);
      ProductRows(a, b, colsA, colsB, lo, hi - 1) + ProductRow(a, b, colsA, colsB, hi - 1)
  }

  /** Entry (i, j) of the row-major product is row i of A dotted with column j of B. */
  lemma {:induction false} ProductRowsEntry(a: seq<int>, b: seq<int>, colsA: nat, colsB: nat, n: nat, i: nat, j: nat)
    requires n * colsA <= |a| && colsA * colsB <= |b| && i < n && j < colsB
    ensures (i + 1) * colsA <= |a| && i * colsB + j < n * colsB
    ensures ProductRows(a, b, colsA, colsB, 0, n)[i * colsB + j]
      == Dense.Dot(Dense.FlatRow(a, colsA, i), Dense.FlatColumn(b, colsB, j, colsA))
    decreases n
  {
    Dense.MulMono(i + 1, n, colsA);
    Dense.FlatIndex(colsB, i, j, n);
    Dense.MulMono(n - 1, n, colsA);
    var prefix := ProductRows(a, b, colsA, colsB, 0, n - 1);
    if i < n - 1 {
      ProductRowsEntry(a, b, colsA, colsB, n - 1, i, j);
      assert ProductRows(a, b, colsA, colsB, 0, n) == prefix + ProductRow(a, b, colsA, colsB, n - 1);
    } else {
      assert |prefix| == i * colsB;
    }
  }

  /** Consecutive stretches of rows join into one. */
  lemma {:induction false} ProductRowsJoin(a: seq<int>, b: seq<int>, colsA: nat, colsB: nat, lo: nat, mid: nat, hi: nat)
    requires lo <= mid <= hi && hi * colsA <= |a| && colsA * colsB <= |b|
    ensures mid * colsA <= |a|
    ensures ProductRows(a, b, colsA, colsB, lo, mid) + ProductRows(a, b, colsA, colsB, mid, hi)
      == ProductRows(a, b, colsA, colsB, lo, hi)
    decreases hi - mid
  {
    Dense.MulMono(mid, hi, colsA);
    if mid < hi {
      Dense.MulMono(hi - 1, hi, colsA);
      ProductRowsJoin(a, b, colsA, colsB, lo, mid, hi - 1);
    }
  }

  /** With B all zeros, every row of the product is zeros: the all-zero performance case. */
  lemma {:induction false} ProductRowsZero(a: seq<int>, b: seq<int>, colsA: nat, colsB: nat, lo: nat, hi: nat)
    requires lo <= hi && hi * colsA <= |a| && colsA * colsB <= |b|
    requires forall t :: 0 <= t < |b| ==> b[t] == 0
    ensures forall t :: 0 <= t < |ProductRows(a, b, colsA, colsB, lo, hi)| ==> ProductRows(a, b, colsA, colsB, lo, hi)[t] == 0
    decreases hi - lo
  {
    if lo < hi {
      Dense.MulMono(hi - 1, hi, colsA);
      ProductRowsZero(a, b, colsA, colsB, lo, hi - 1);
      var row := ProductRow(a, b, colsA, colsB, hi - 1);
      forall j | 0 <= j < colsB
        ensures row[j] == 0
      {
        Dense.DotZeroRight(Dense.FlatRow(a, colsA, hi - 1), Dense.FlatColumn(b, colsB, j, colsA));
      }
    }
  }

  /** `local` holds A's elements from row lo on, for n rows. */
  predicate HoldsRows(local: seq<int>, a: seq<int>, colsA: nat, lo: nat, n: nat)
  {
    && n * colsA <= |local| && (lo + n) * colsA <= |a| && lo * colsA + n * colsA <= |a|
    && forall t :: 0 <= t < n * colsA ==> local[t] == a[lo * colsA + t]
  }

  /** The offsets of row i within the buffer and of row lo + i within A. */
  lemma RowOffsets(colsA: nat, lo: nat, n: nat, i: nat)
    requires i < n
    ensures i * colsA + colsA == (i + 1) * colsA <= n * colsA
    ensures (lo + i) * colsA == lo * colsA + i * colsA
    ensures (lo + i + 1) * colsA <= (lo + n) * colsA
  {
    Dense.MulMono(i + 1, n, colsA);
    Dense.MulMono(lo + i + 1, lo + n, colsA);
    Dense.MulDistrib(lo, i, colsA);
    Dense.MulDistrib(i, 1, colsA);
  }

  /** Row i of such a buffer is row lo + i of A. */
  lemma RowOfShifted(local: seq<int>, a: seq<int>, colsA: nat, lo: nat, n: nat, i: nat)
    requires HoldsRows(local, a, colsA, lo, n) && i < n
    ensures (i + 1) * colsA <= |local| && (lo + i + 1) * colsA <= |a|
    ensures Dense.FlatRow(local, colsA, i) == Dense.FlatRow(a, colsA, lo + i)
  {
    RowOffsets(colsA, lo, n, i);
    var p, q := i * colsA, lo * colsA;
    var u, v := Dense.FlatRow(local, colsA, i), Dense.FlatRow(a, colsA, lo + i);
    forall k | 0 <= k < colsA
      ensures u[k] == v[k]
    {
      assert u[k] == local[p + k] == a[q + (p + k)];
    }
  }

  /** Fewer rows of such a buffer are held too. */
  lemma HoldsFewerRows(local: seq<int>, a: seq<int>, colsA: nat, lo: nat, n: nat)
    requires HoldsRows(local, a, colsA, lo, n) && 0 < n
    ensures HoldsRows(local, a, colsA, lo, n - 1)
  {
    Dense.MulMono(n - 1, n, colsA);
    Dense.MulMono(lo + n - 1, lo + n, colsA);
  }

  /** A buffer holding A's rows lo .. lo + n - 1 yields those rows of the product. */
  lemma {:induction false} ShiftedRows(local: seq<int>, a: seq<int>, b: seq<int>, colsA: nat, colsB: nat, lo: nat, n: nat)
    requires HoldsRows(local, a, colsA, lo, n) && colsA * colsB <= |b|
    ensures ProductRows(local, b, colsA, colsB, 0, n) == ProductRows(a, b, colsA, colsB, lo, lo + n)
    decreases n
  {
    if n > 0 {
      HoldsFewerRows(local, a, colsA, lo, n);
      ShiftedRows(local, a, b, colsA, colsB, lo, n - 1);
      RowOfShifted(local, a, colsA, lo, n, n - 1);
      assert ProductRow(local, b, colsA, colsB, n - 1) == ProductRow(a, b, colsA, colsB, lo + n - 1);
    }
  }

  /** The block of rows lo .. lo + n - 1 of A yields rows lo .. lo + n - 1 of the product. */
  lemma BlockProduct(a: seq<int>, b: seq<int>, colsA: nat, colsB: nat, lo: nat, n: nat)
    requires (lo + n) * colsA <= |a| && colsA * colsB <= |b|
    ensures lo * colsA + n * colsA == (lo + n) * colsA
    ensures ProductRows(a[lo * colsA .. lo * colsA + n * colsA], b, colsA, colsB, 0, n)
      == ProductRows(a, b, colsA, colsB, lo, lo + n)
  {
    Dense.MulDistrib(lo, n, colsA);
    ShiftedRows(a[lo * colsA .. lo * colsA + n * colsA], a, b, colsA, colsB, lo, n);
  }

  /**
   * The innermost loop: local_res[at] += local_A[i * cols_A + k] * B[k * cols_B + j]
   * for k = 0 .. cols_A - 1, i.e. row i of the block dotted with column j of B.
   */
  method AccumulateFlatEntry(local: seq<int>, b: seq<int>, colsA: nat, colsB: nat, i: nat, j: nat, at: nat, res0: seq<int>)
    returns (res: seq<int>)
    requires (i + 1) * colsA <= |local| && j < colsB && colsA * colsB <= |b| && at < |res0|
    ensures |res| == |res0|
    ensures res[at] == res0[at] + Dense.Dot(Dense.FlatRow(local, colsA, i), Dense.FlatColumn(b, colsB, j, colsA))
    ensures forall t :: 0 <= t < |res| && t != at ==> res[t] == res0[t]
  {
    var row, col := Dense.FlatRow(local, colsA, i), Dense.FlatColumn(b, colsB, j, colsA);
    var rowStart := i * colsA;
    Dense.MulDistrib(i, 1, colsA);
    res := res0;
    var k := 0;
    while k < colsA
      invariant 0 <= k <= colsA && |res| == |res0|
      invariant res[at] == res0[at] + Dense.Dot(row[..k], col[..k])
      invariant forall t :: 0 <= t < |res| && t != at ==> res[t] == res0[t]
    {
      Dense.DotPrefix(row, col, k);
      assert local[rowStart + k] == row[k] && b[k * colsB + j] == col[k];
      res := res[at := res[at] + local[rowStart + k] * b[k * colsB + j]];
      k := k + 1;
    }
    assert row[..colsA] == row && col[..colsA] == col;
  }

  /** The middle loop: row i of the product is added onto local_res[base .. base + cols_B - 1]. */
  method AccumulateFlatRow(local: seq<int>, b: seq<int>, colsA: nat, colsB: nat, i: nat, base: nat, res0: seq<int>)
    returns (res: seq<int>)
    requires (i + 1) * colsA <= |local| && colsA * colsB <= |b| && base + colsB <= |res0|
    ensures |res| == |res0|
    ensures forall t :: 0 <= t < |res| ==>
      res[t] == res0[t] + (if base <= t < base + colsB then ProductRow(local, b, colsA, colsB, i)[t - base] else 0)
  {
    var row := ProductRow(local, b, colsA, colsB, i);
    res := res0;
    var j := 0;
    while j < colsB
      invariant 0 <= j <= colsB && |res| == |res0|
      invariant forall t :: 0 <= t < |res| ==> res[t] == res0[t] + (if base <= t < base + j then row[t - base] else 0)
    {
      res := AccumulateFlatEntry(local, b, colsA, colsB, i, j, base + j, res);
      j := j + 1;
    }
  }

  /**
   * Accumulating a row onto zeros at `base`, right after a filled prefix,
   * extends the prefix by that row and leaves the rest zero.
   */
  lemma RowAppended(prior: seq<int>, res: seq<int>, filled: seq<int>, row: seq<int>, base: nat)
    requires |res| == |prior| && base + |row| <= |prior| && prior[..base] == filled
    requires forall t :: base <= t < |prior| ==> prior[t] == 0
    requires forall t :: 0 <= t < |res| ==> res[t] == prior[t] + (if base <= t < base + |row| then row[t - base] else 0)
    ensures res[..base + |row|] == filled + row
    ensures forall t :: base + |row| <= t < |res| ==> res[t] == 0
  {
    assert res[..base] == prior[..base];
    assert res[base .. base + |row|] == row;
    assert res[..base + |row|] == res[..base] + res[base .. base + |row|];
  }

  /** One rank's block product: local_res is zeroed, then every row of the block times B is accumulated into it. */
  method LocalProduct(local: seq<int>, b: seq<int>, n: nat, colsA: nat, colsB: nat) returns (res: seq<int>)
    requires n * colsA <= |local| && colsA * colsB <= |b|
    ensures res == ProductRows(local, b, colsA, colsB, 0, n)
  {
    res := seq(n * colsB, _ => 0);
    var i := 0;
    while i < n
      invariant 0 <= i <= n && |res| == n * colsB && i * colsB <= n * colsB
      invariant res[..i * colsB] == ProductRows(local, b, colsA, colsB, 0, i)
      invariant forall t :: i * colsB <= t < n * colsB ==> res[t] == 0
    {
      assert (i + 1) * colsA <= |local| && (i + 1) * colsB == i * colsB + colsB <= n * colsB by {
        Dense.MulMono(i + 1, n, colsB);
        Dense.MulMono(i + 1, n, colsA);
        Dense.MulDistrib(i, 1, colsB);
      }
      var prior := res;
      res := AccumulateFlatRow(local, b, colsA, colsB, i, i * colsB, res);
      RowAppended(prior, res, ProductRows(local, b, colsA, colsB, 0, i), ProductRow(local, b, colsA, colsB, i), i * colsB);
      i := i + 1;
    }
    assert res[..n * colsB] == res;
  }

  /**
   * The rank loop of `run`: the counts and displacements for A's rows and
   * for the product's rows, then per rank the scatterv of its block, the
   * block product, and the gatherv that places it at its receive
   * displacement, right after the lower ranks' blocks.
   */
  method GatherProduct(a: seq<int>, b: seq<int>, size: nat, rowsA: nat, colsA: nat, colsB: nat) returns (result: seq<int>)
    requires 1 <= size && 0 < colsA && |a| == rowsA * colsA && colsA * colsB <= |b|
    ensures result == ProductRows(a, b, colsA, colsB, 0, rowsA)
  {
    var sendCounts, displs := Counts(size, rowsA, colsA);
    var recvCounts, recvDispls := Counts(size, rowsA, colsB);
    result := [];
    var r := 0;
    while r < size
      invariant 0 <= r <= size && RankFirstRow(r, size, rowsA) <= rowsA
      invariant RankFirstRow(r, size, rowsA) * colsA <= |a|
      invariant result == ProductRows(a, b, colsA, colsB, 0, RankFirstRow(r, size, rowsA))
    {
      RankFirstRowBound(r, r + 1, size, rowsA);
      var lo, n := RankFirstRow(r, size, rowsA), RankRows(r, size, rowsA);
      Dense.MulMono(lo + n, rowsA, colsA);
      Dense.MulDistrib(lo, n, colsA);
      DisplacementIsFirstRow(sendCounts, size, rowsA, colsA, r);
      var localA := a[displs[r] .. displs[r] + sendCounts[r]];
      LocalRows(sendCounts, size, rowsA, colsA, r);
      var localRows := sendCounts[r] / colsA;
      var localRes := LocalProduct(localA, b, localRows, colsA, colsB);
      assert localA == a[lo * colsA .. lo * colsA + n * colsA];
      BlockProduct(a, b, colsA, colsB, lo, n);
      DisplacementIsFirstRow(recvCounts, size, rowsA, colsB, r);
      assert recvDispls[r] == |result|;
      ProductRowsJoin(a, b, colsA, colsB, 0, lo, lo + n);
      result := result + localRes;
      r := r + 1;
    }
    RankFirstRowLast(size, rowsA);
  }

  /**
   * The guard around the work of validation, pre_processing and
   * post_processing: a world of fewer than five ranks, or a rank from 4 on.
   * On the root, rank 0, it holds only in worlds of fewer than five ranks.
   */
  predicate Works(rank: nat, size: nat)
  {
    size < 5 || rank >= 4
  }

  /**
   * The guard with the root kept in: rank 0 broadcasts the verdict and
   * gathers the product, so it always works. Since it admits rank 0 in every
   * world, the corrected members below call the unguarded stages directly.
   */
  predicate CorrectedWorks(rank: nat, size: nat)
  {
    size < 5 || rank == 0 || rank >= 4
  }

  /** The MPI task's state on the root: the dimensions, copies of A and B, and the gathered product. */
  class MpiMatrixTask {
    var taskData: TaskData
    var a: seq<int>
    var b: seq<int>
    var result: seq<int>
    var rowsA: int
    var colsA: int
    var rowsB: int
    var colsB: int

    constructor(td: TaskData)
      ensures taskData == td && a == [] && b == [] && result == []
      ensures rowsA == 0 && colsA == 0 && rowsB == 0 && colsB == 0
    {
      taskData := td;
      a, b, result := [], [], [];
      rowsA, colsA, rowsB, colsB := 0, 0, 0, 0;
    }

    /**
     * `validation` on the root of a world of `size` ranks: the dimensions
     * are read and checked only under the guard, and the root's verdict,
     * true when it skipped the check, is what every rank returns.
     */
    method Validation(size: nat) returns (ok: bool)
      requires Works(0, size) ==> |taskData.inputsCount| >= 4
      modifies this
      ensures taskData == old(taskData) && a == old(a) && b == old(b) && result == old(result)
      ensures Works(0, size) ==> ok == Accepts(ReadDims(taskData)) && Dims(rowsA, colsA, rowsB, colsB) == ReadDims(taskData)
      ensures !Works(0, size) ==> ok && rowsA == old(rowsA) && colsA == old(colsA) && rowsB == old(rowsB) && colsB == old(colsB)
    {
      ok := true;
      if Works(0, size) {
        ok := ValidationWork();
      }
    }

    /** The work inside validation's guard: read the four dimensions from inputs_count and accept them as Accepts says. */
    method ValidationWork() returns (ok: bool)
      requires |taskData.inputsCount| >= 4
      modifies this
      ensures taskData == old(taskData) && a == old(a) && b == old(b) && result == old(result)
      ensures ok == Accepts(ReadDims(taskData))
      ensures Dims(rowsA, colsA, rowsB, colsB) == ReadDims(taskData)
    {
      var td := taskData;
      rowsA, colsA := ToInt32(td.inputsCount[0]), ToInt32(td.inputsCount[1]);
      rowsB, colsB := ToInt32(td.inputsCount[2]), ToInt32(td.inputsCount[3]);
      ok := !(colsA != rowsB || rowsA <= 0 || colsA <= 0 || rowsB <= 0 || colsB <= 0);
    }

    /** `pre_processing` on the root of a world of `size` ranks: the copies happen only under the guard. */
    method PreProcessing(size: nat) returns (ok: bool)
      requires Works(0, size) ==> 0 <= rowsA && 0 <= colsA && 0 <= rowsB && 0 <= colsB
      requires Works(0, size) ==> InputHolds(taskData, 0, rowsA * colsA) && InputHolds(taskData, 1, rowsB * colsB)
      modifies this
      ensures taskData == old(taskData)
      ensures rowsA == old(rowsA) && colsA == old(colsA) && rowsB == old(rowsB) && colsB == old(colsB)
      ensures ok
      ensures Works(0, size) ==> a == Input(taskData, 0, rowsA * colsA) && b == Input(taskData, 1, rowsB * colsB) && result == []
      ensures !Works(0, size) ==> a == old(a) && b == old(b) && result == old(result)
    {
      ok := true;
      if Works(0, size) {
        ok := PreProcessingWork();
      }
    }

    /** The work inside pre_processing's guard: copy rows_A * cols_A elements of A and rows_B * cols_B of B; no result yet. */
    method PreProcessingWork() returns (ok: bool)
      requires 0 <= rowsA && 0 <= colsA && 0 <= rowsB && 0 <= colsB
      requires InputHolds(taskData, 0, rowsA * colsA) && InputHolds(taskData, 1, rowsB * colsB)
      modifies this
      ensures taskData == old(taskData)
      ensures rowsA == old(rowsA) && colsA == old(colsA) && rowsB == old(rowsB) && colsB == old(colsB)
      ensures ok && a == Input(taskData, 0, rowsA * colsA) && b == Input(taskData, 1, rowsB * colsB) && result == []
    {
      a := Input(taskData, 0, rowsA * colsA);
      b := Input(taskData, 1, rowsB * colsB);
      result := [];
      ok := true;
    }

    /**
     * `run` over a world of `size` ranks: the product of the validated
     * operands, gathered on the root in row-major order.
     */
    method Run(size: nat) returns (ok: bool)
      requires 1 <= size && 0 <= rowsA && 0 < colsA && 0 <= colsB && rowsB == colsA
      requires |a| == rowsA * colsA && |b| == rowsB * colsB
      modifies this
      ensures taskData == old(taskData) && a == old(a) && b == old(b)
      ensures rowsA == old(rowsA) && colsA == old(colsA) && rowsB == old(rowsB) && colsB == old(colsB)
      ensures ok && result == ProductRows(a, b, colsA, colsB, 0, rowsA)
    {
      result := GatherProduct(a, b, size, rowsA, colsA, colsB);
      ok := true;
    }

    /** `post_processing` on the root of a world of `size` ranks: output 0 is written only under the guard. */
    method PostProcessing(size: nat) returns (ok: bool)
      requires Works(0, size) ==> 0 <= rowsA && 0 <= colsB && rowsA * colsB <= |result|
      requires Works(0, size) ==>
        1 <= |taskData.outputs| && taskData.outputs[0].Data? && rowsA * colsB <= |taskData.outputs[0].items|
      modifies this
      ensures ok && a == old(a) && b == old(b) && result == old(result)
      ensures rowsA == old(rowsA) && colsA == old(colsA) && rowsB == old(rowsB) && colsB == old(colsB)
      ensures Works(0, size) ==> taskData == old(taskData).(outputs := old(taskData).outputs[0 := Data(
        result[..rowsA * colsB] + old(taskData).outputs[0].items[rowsA * colsB..])])
      ensures !Works(0, size) ==> taskData == old(taskData)
    {
      ok := true;
      if Works(0, size) {
        ok := PostProcessingWork();
      }
    }

    /** The work inside post_processing's guard: copy rows_A * cols_B elements of the product into output 0. */
    method PostProcessingWork() returns (ok: bool)
      requires 0 <= rowsA && 0 <= colsB && rowsA * colsB <= |result|
      requires 1 <= |taskData.outputs| && taskData.outputs[0].Data? && rowsA * colsB <= |taskData.outputs[0].items|
      modifies this
      ensures ok && a == old(a) && b == old(b) && result == old(result)
      ensures rowsA == old(rowsA) && colsA == old(colsA) && rowsB == old(rowsB) && colsB == old(colsB)
      ensures taskData == old(taskData).(outputs := old(taskData).outputs[0 := Data(
        result[..rowsA * colsB] + old(taskData).outputs[0].items[rowsA * colsB..])])
    {
      var td := taskData;
      var n := rowsA * colsB;
      taskData := td.(outputs := td.outputs[0 := Data(result[..n] + td.outputs[0].items[n..])]);
      ok := true;
    }
  }

  /** The operands and the product a run on accepted dimensions computes, read from the task data. */
  function Expected(td: TaskData): (p: seq<int>)
    requires |td.inputsCount| >= 4 && Accepts(ReadDims(td))
    requires InputHolds(td, 0, ReadDims(td).rowsA * ReadDims(td).colsA)
    requires InputHolds(td, 1, ReadDims(td).rowsB * ReadDims(td).colsB)
  {
    var d := ReadDims(td);
    var rowsA, colsA, colsB: nat := d.rowsA, d.colsA, d.colsB;
    Dense.MulMono(colsA, d.rowsB, colsB);
    ProductRows(Input(td, 0, rowsA * colsA), Input(td, 1, d.rowsB * colsB), colsA, colsB, 0, rowsA)
  }

  /**
   * The whole task as written, on accepted dimensions and large enough
   * buffers, in a world of fewer than five ranks, where the root passes the
   * guard: every stage succeeds and output 0 starts with the row-major
   * product (whose entries ProductRowsEntry describes).
   */
  method Lifecycle(td: TaskData, size: nat) returns (ok: bool, out: seq<int>)
    requires 1 <= size < 5 && |td.inputsCount| >= 4 && Accepts(ReadDims(td))
    requires InputHolds(td, 0, ReadDims(td).rowsA * ReadDims(td).colsA)
    requires InputHolds(td, 1, ReadDims(td).rowsB * ReadDims(td).colsB)
    requires 1 <= |td.outputs| && td.outputs[0].Data? && ReadDims(td).rowsA * ReadDims(td).colsB <= |td.outputs[0].items|
    ensures ok && |Expected(td)| <= |out| && out[..|Expected(td)|] == Expected(td)
  {
    var task := new MpiMatrixTask(td);
    var valid := task.Validation(size);
    var pre := task.PreProcessing(size);
    var run := task.Run(size);
    var post := task.PostProcessing(size);
    ok := valid && pre && run && post;
    out := task.taskData.outputs[0].items;
  }

  /**
   * With five or more ranks the root skips the check and broadcasts true:
   * the unit test's 2×3 by 7×4 operands, which it expects to be rejected,
   * are accepted.
   */
  method AsWrittenAcceptsMismatch(size: nat) returns (td: TaskData, ok: bool)
    requires 5 <= size
    ensures |td.inputsCount| >= 4 && !Accepts(ReadDims(td)) && ok
  {
    td := TaskData([], [2, 3, 7, 4], [], []);
    ValidationExamples([], [], []);
    var task := new MpiMatrixTask(td);
    ok := task.Validation(size);
  }

  /** With a guard that keeps the root, validation rejects those operands in every world. */
  method CorrectedRejectsMismatch(size: nat) returns (td: TaskData, ok: bool)
    requires 1 <= size
    ensures |td.inputsCount| >= 4 && !Accepts(ReadDims(td)) && !ok
  {
    td := TaskData([], [2, 3, 7, 4], [], []);
    ValidationExamples([], [], []);
    var task := new MpiMatrixTask(td);
    ok := task.ValidationWork();
  }

  /**
   * The whole task with a guard that keeps the root: for every world size
   * every stage succeeds and output 0 starts with the row-major product.
   */
  method CorrectedLifecycle(td: TaskData, size: nat) returns (ok: bool, out: seq<int>)
    requires 1 <= size && |td.inputsCount| >= 4 && Accepts(ReadDims(td))
    requires InputHolds(td, 0, ReadDims(td).rowsA * ReadDims(td).colsA)
    requires InputHolds(td, 1, ReadDims(td).rowsB * ReadDims(td).colsB)
    requires 1 <= |td.outputs| && td.outputs[0].Data? && ReadDims(td).rowsA * ReadDims(td).colsB <= |td.outputs[0].items|
    ensures ok && |Expected(td)| <= |out| && out[..|Expected(td)|] == Expected(td)
  {
    var task := new MpiMatrixTask(td);
    var valid := task.ValidationWork();
    var pre := task.PreProcessingWork();
    var run := task.Run(size);
    var post := task.PostProcessingWork();
    ok := valid && pre && run && post;
    out := task.taskData.outputs[0].items;
  }
}
