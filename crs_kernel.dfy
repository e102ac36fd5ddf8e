/**
 * The dense-accumulator CRS kernel, shared line for line by the sequential
 * task's `run` and each rank's local computation in the distributed task:
 * for every row, refill `temp` with zeros, accumulate a_val * b_val into
 * temp[b_col], record the running entry count in row_ptr, and push the
 * nonzero cells of temp in ascending column order.
 */
module CrsKernel {
  import opened Crs

  /** Refill temp with zeros, then add a_val * b_val for every (A row i, B row a_col) pair of entries. */
  method AccumulateRow(a: CrsMatrix, b: CrsMatrix, ncols: nat, i: int, temp: array<int>)
    requires Compatible(a, b, ncols) && 0 <= i < NRows(a) && temp.Length == ncols
    modifies temp
    ensures temp[..] == DenseRow(a, b, ncols, i)
  {
    forall k | 0 <= k < temp.Length {
      temp[k] := 0;
    }
    RowBounds(a, NRows(b), i);
    var startA, endA := a.rowPtr[i], a.rowPtr[i + 1];
    var posA := startA;
    while posA < endA
      invariant startA <= posA <= endA
      invariant temp[..] == Accumulated(a, b, ncols, i, posA)
    {
      var aVal, aCol := a.values[posA], a.colIndex[posA];
      RowBounds(b, ncols, aCol);
      var startB, endB := b.rowPtr[aCol], b.rowPtr[aCol + 1];
      ghost var before := temp[..];
      var posB := startB;
      while posB < endB
        invariant startB <= posB <= endB
        invariant temp[..] == AddScaledRow(before, aVal, b, startB, posB)
      {
        var bCol, bVal := b.colIndex[posB], b.values[posB];
        temp[bCol] := temp[bCol] + aVal * bVal;
        posB := posB + 1;
      }
      posA := posA + 1;
    }
  }

  /**
   * The scan that compresses temp: push temp[col] and col for every nonzero
   * cell, in ascending col. Returns the grown sequences and how many entries
   * were pushed (the distributed task's `++local_nnz_count`).
   */
  method AppendNonZeros(temp: array<int>, values: seq<int>, cols: seq<int>)
    returns (values': seq<int>, cols': seq<int>, pushed: nat)
    ensures values' == values + NonZeros(temp[..], temp.Length).values
    ensures cols' == cols + NonZeros(temp[..], temp.Length).cols
    ensures pushed == |NonZeros(temp[..], temp.Length).values|
  {
    values', cols', pushed := values, cols, 0;
    var col := 0;
    while col < temp.Length
      invariant 0 <= col <= temp.Length
      invariant values' == values + NonZeros(temp[..], col).values
      invariant cols' == cols + NonZeros(temp[..], col).cols
      invariant pushed == |NonZeros(temp[..], col).values|
    {
      NonZerosStep(temp[..], col);
      if temp[col] != 0 {
        values' := values' + [temp[col]];
        cols' := cols' + [col];
        pushed := pushed + 1;
      }
      col := col + 1;
    }
  }

  /** One pass of the row loop: accumulate row i into temp, then push its nonzero cells. */
  method EmitRow(a: CrsMatrix, b: CrsMatrix, ncols: nat, i: int, temp: array<int>, values: seq<int>, cols: seq<int>)
    returns (values': seq<int>, cols': seq<int>, pushed: nat)
    requires Compatible(a, b, ncols) && 0 <= i < NRows(a) && temp.Length == ncols
    modifies temp
    ensures values' == values + RowOf(a, b, ncols, i).values
    ensures cols' == cols + RowOf(a, b, ncols, i).cols
    ensures pushed == |RowOf(a, b, ncols, i).values|
  {
    AccumulateRow(a, b, ncols, i, temp);
    values', cols', pushed := AppendNonZeros(temp, values, cols);
  }

  /**
   * Rows start .. end of A * B in CRS form, as one rank computes its fragment:
   * row_ptr is pre-sized to end - start + 1 zeros, entry i - start is set to
   * the running count before row i, and the last entry to the final count.
   */
  method MultiplyRows(a: CrsMatrix, b: CrsMatrix, ncols: nat, start: int, end: int)
    returns (values: seq<int>, colIndex: seq<int>, rowPtr: seq<int>)
    requires Compatible(a, b, ncols) && 0 <= start <= end <= NRows(a)
    ensures CrsMatrix(values, colIndex, rowPtr) == Product(a, b, ncols, start, end)
  {
    var temp := new int[ncols];
    values, colIndex := [], [];
    rowPtr := seq(end - start + 1, _ => 0);
    var count := 0;
    var i := start;
    ProductEmpty(a, b, ncols, start);
    while i < end
      invariant start <= i <= end && |rowPtr| == end - start + 1
      invariant RowLoopInvariant(a, b, ncols, start, i, values, colIndex, rowPtr)
      invariant count == |values|
    {
      RowLoopStep(a, b, ncols, start, i, values, colIndex, rowPtr);
      rowPtr := rowPtr[i - start := count];
      var pushed;
      values, colIndex, pushed := EmitRow(a, b, ncols, i, temp, values, colIndex);
      count := count + pushed;
      i := i + 1;
    }
    RowLoopEnd(a, b, ncols, start, end, values, colIndex, rowPtr);
    rowPtr := rowPtr[end - start := count];
  }

  /** What the row loop has built after rows start .. i: the product's entries, and all but the last rowPtr entry. */
  ghost predicate RowLoopInvariant(a: CrsMatrix, b: CrsMatrix, ncols: nat, start: int, i: int,
                                   values: seq<int>, colIndex: seq<int>, rowPtr: seq<int>)
    requires Compatible(a, b, ncols) && 0 <= start <= i <= NRows(a)
  {
    var p := Product(a, b, ncols, start, i);
    values == p.values && colIndex == p.colIndex && i - start < |rowPtr| && rowPtr[..i - start] == p.rowPtr[..i - start]
  }

  /** One pass of the row loop keeps RowLoopInvariant: row i's count goes at i - start, its entries are appended. */
  lemma RowLoopStep(a: CrsMatrix, b: CrsMatrix, ncols: nat, start: int, i: int,
                    values: seq<int>, colIndex: seq<int>, rowPtr: seq<int>)
    requires Compatible(a, b, ncols) && 0 <= start <= i < NRows(a) && i + 1 - start < |rowPtr|
    requires RowLoopInvariant(a, b, ncols, start, i, values, colIndex, rowPtr)
    ensures var row := RowOf(a, b, ncols, i);
      RowLoopInvariant(a, b, ncols, start, i + 1, values + row.values, colIndex + row.cols, rowPtr[i - start := |values|])
  {
    ProductSnoc(a, b, ncols, start, i + 1);
    AppendStep(Product(a, b, ncols, start, i), RowOf(a, b, ncols, i), values, colIndex, rowPtr, i - start);
  }

  /** The row loop's step on any matrix p with k rows: the same update that AppendRow makes. */
  lemma AppendStep(p: CrsMatrix, row: RowEntries, values: seq<int>, colIndex: seq<int>, rowPtr: seq<int>, k: int)
    requires 0 <= k < |rowPtr| && |p.rowPtr| == k + 1 && p.rowPtr[k] == |p.values|
    requires values == p.values && colIndex == p.colIndex && rowPtr[..k] == p.rowPtr[..k]
    ensures var q := AppendRow(p, row);
      && values + row.values == q.values && colIndex + row.cols == q.colIndex
      && rowPtr[k := |values|][..k + 1] == q.rowPtr[..k + 1]
  {
    SetNext(rowPtr, p.rowPtr, k, |values|);
    assert p.rowPtr[..k + 1] == p.rowPtr;
  }

  /** After the last row, writing the final count into the last rowPtr slot completes the product. */
  lemma RowLoopEnd(a: CrsMatrix, b: CrsMatrix, ncols: nat, start: int, end: int,
                   values: seq<int>, colIndex: seq<int>, rowPtr: seq<int>)
    requires Compatible(a, b, ncols) && 0 <= start <= end <= NRows(a) && |rowPtr| == end - start + 1
    requires RowLoopInvariant(a, b, ncols, start, end, values, colIndex, rowPtr)
    ensures CrsMatrix(values, colIndex, rowPtr[end - start := |values|]) == Product(a, b, ncols, start, end)
  {
    var p := Product(a, b, ncols, start, end);
    SetNext(rowPtr, p.rowPtr, end - start, |values|);
    assert rowPtr[end - start := |values|][..end - start + 1] == rowPtr[end - start := |values|];
    assert p.rowPtr[..end - start + 1] == p.rowPtr;
  }

  /** Writing x at index k of s, whose first k entries agree with t, makes its first k + 1 entries t followed by x. */
  lemma SetNext(s: seq<int>, t: seq<int>, k: int, x: int)
    requires 0 <= k < |s| && k < |t| && s[..k] == t[..k] && t[k] == x
    ensures s[k := x][..k + 1] == t[..k + 1]
  {
    assert forall j :: 0 <= j < k ==> s[j] == s[..k][j];
  }
}
