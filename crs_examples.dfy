/**
 * The products the CRS tasks' functional tests expect, derived from the
 * model's definition of the kernel (Crs.Product).
 */
module CrsExamples {
  import opened Crs

  /** One more row of a product whose shorter prefix and new row are known. */
  lemma ProductStep(a: CrsMatrix, b: CrsMatrix, ncols: nat, lo: int, hi: int, prev: CrsMatrix, row: RowEntries, next: CrsMatrix)
    requires Compatible(a, b, ncols) && 0 <= lo < hi <= NRows(a)
    requires Product(a, b, ncols, lo, hi - 1) == prev && RowOf(a, b, ncols, hi - 1) == row && AppendRow(prev, row) == next
    ensures Product(a, b, ncols, lo, hi) == next
  {
    ProductSnoc(a, b, ncols, lo, hi);
  }

  /** AppendRow on literal arrays: the row's entries go after the old ones, and rowPtr gains the new count. */
  lemma AppendLiteral(values: seq<int>, cols: seq<int>, rowPtr: seq<int>, rowValues: seq<int>, rowCols: seq<int>, rowPtr': seq<int>)
    requires rowPtr' == rowPtr + [|values| + |rowValues|]
    ensures AppendRow(CrsMatrix(values, cols, rowPtr), RowEntries(rowValues, rowCols))
         == CrsMatrix(values + rowValues, cols + rowCols, rowPtr')
  {
  }

  // ---------------------------------------------------------------------
  // [[1, 2], [3, 4]] * [[5, 6], [7, 8]]
  // ---------------------------------------------------------------------

  const SquareA := CrsMatrix([1, 2, 3, 4], [0, 1, 0, 1], [0, 2, 4])
  const SquareB := CrsMatrix([5, 6, 7, 8], [0, 1, 0, 1], [0, 2, 4])

  lemma SquareCompatible()
    ensures Compatible(SquareA, SquareB, 2)
  {
  }

  lemma SquareDense0()
    ensures Compatible(SquareA, SquareB, 2) && DenseRow(SquareA, SquareB, 2, 0) == [19, 22]
  {
    SquareCompatible();
    assert AddScaledRow([0, 0], 1, SquareB, 0, 1) == [5, 0];
    assert Accumulated(SquareA, SquareB, 2, 0, 1) == [5, 6];
    assert AddScaledRow([5, 6], 2, SquareB, 2, 3) == [19, 6];
  }

  lemma SquareDense1()
    ensures Compatible(SquareA, SquareB, 2) && DenseRow(SquareA, SquareB, 2, 1) == [43, 50]
  {
    SquareCompatible();
    assert AddScaledRow([0, 0], 3, SquareB, 0, 1) == [15, 0];
    assert Accumulated(SquareA, SquareB, 2, 1, 3) == [15, 18];
    assert AddScaledRow([15, 18], 4, SquareB, 2, 3) == [43, 18];
  }

  lemma SquareRow0()
    ensures Compatible(SquareA, SquareB, 2) && RowOf(SquareA, SquareB, 2, 0) == RowEntries([19, 22], [0, 1])
  {
    SquareDense0();
    NonZerosPair0();
  }

  lemma NonZerosPair0()
    ensures NonZeros([19, 22], 2) == RowEntries([19, 22], [0, 1])
  {
    NonZerosKeep([19, 22], 1, RowEntries([], []));
    NonZerosKeep([19, 22], 2, RowEntries([19], [0]));
  }

  lemma NonZerosPair1()
    ensures NonZeros([43, 50], 2) == RowEntries([43, 50], [0, 1])
  {
    NonZerosKeep([43, 50], 1, RowEntries([], []));
    NonZerosKeep([43, 50], 2, RowEntries([43], [0]));
  }

  lemma SquareRow1()
    ensures Compatible(SquareA, SquareB, 2) && RowOf(SquareA, SquareB, 2, 1) == RowEntries([43, 50], [0, 1])
  {
    SquareDense1();
    NonZerosPair1();
  }

  lemma SquareFirstRow()
    ensures Compatible(SquareA, SquareB, 2)
    ensures Product(SquareA, SquareB, 2, 0, 1) == CrsMatrix([19, 22], [0, 1], [0, 2])
  {
    AppendLiteral([], [], [0], [19, 22], [0, 1], [0, 2]);
    assert [] + [19, 22] == [19, 22] && [] + [0, 1] == [0, 1];
    SquareRow0();
    ProductEmpty(SquareA, SquareB, 2, 0);
    ProductStep(SquareA, SquareB, 2, 0, 1, CrsMatrix([], [], [0]), RowEntries([19, 22], [0, 1]), CrsMatrix([19, 22], [0, 1], [0, 2]));
  }

  /** The expected C of the sequential task's first functional test. */
  lemma SquareExample()
    ensures Compatible(SquareA, SquareB, 2)
    ensures Product(SquareA, SquareB, 2, 0, 2) == CrsMatrix([19, 22, 43, 50], [0, 1, 0, 1], [0, 2, 4])
  {
    AppendLiteral([19, 22], [0, 1], [0, 2], [43, 50], [0, 1], [0, 2, 4]);
    assert [19, 22] + [43, 50] == [19, 22, 43, 50] && [0, 1] + [0, 1] == [0, 1, 0, 1];
    SquareFirstRow();
    SquareRow1();
    ProductStep(SquareA, SquareB, 2, 0, 2, CrsMatrix([19, 22], [0, 1], [0, 2]), RowEntries([43, 50], [0, 1]),
                CrsMatrix([19, 22, 43, 50], [0, 1, 0, 1], [0, 2, 4]));
  }

  // ---------------------------------------------------------------------
  // Two all-zero 3 x 3 matrices: nothing is stored, so the derived column
  // count of B is 0
  // ---------------------------------------------------------------------

  const ZeroCrs := CrsMatrix([], [], [0, 0, 0, 0])

  /** Every row of the all-zero product is empty. */
  lemma ZeroRow(i: int)
    requires 0 <= i < 3
    ensures Compatible(ZeroCrs, ZeroCrs, 0) && RowOf(ZeroCrs, ZeroCrs, 0, i) == RowEntries([], [])
  {
    assert Compatible(ZeroCrs, ZeroCrs, 0);
  }

  /** The expected C of the all-zero functional test: no entries and row_ptr four zeros. */
  lemma ZeroExample()
    ensures ColumnCount(ZeroCrs.colIndex) == 0 && Compatible(ZeroCrs, ZeroCrs, 0)
    ensures Product(ZeroCrs, ZeroCrs, 0, 0, 3) == CrsMatrix([], [], [0, 0, 0, 0])
  {
    var empty := RowEntries([], []);
    AppendLiteral([], [], [0], [], [], [0, 0]);
    AppendLiteral([], [], [0, 0], [], [], [0, 0, 0]);
    AppendLiteral([], [], [0, 0, 0], [], [], [0, 0, 0, 0]);
    ZeroRow(0);
    ZeroRow(1);
    ZeroRow(2);
    ProductEmpty(ZeroCrs, ZeroCrs, 0, 0);
    ProductStep(ZeroCrs, ZeroCrs, 0, 0, 1, CrsMatrix([], [], [0]), empty, CrsMatrix([], [], [0, 0]));
    ProductStep(ZeroCrs, ZeroCrs, 0, 0, 2, CrsMatrix([], [], [0, 0]), empty, CrsMatrix([], [], [0, 0, 0]));
    ProductStep(ZeroCrs, ZeroCrs, 0, 0, 3, CrsMatrix([], [], [0, 0, 0]), empty, CrsMatrix([], [], [0, 0, 0, 0]));
  }

  // ---------------------------------------------------------------------
  // [[1, 0, 2], [0, 3, 0], [4, 0, 5]] * [[7, 8, 9], [0, 1, 0], [6, 5, 4]]
  // ---------------------------------------------------------------------

  const ThreeA := CrsMatrix([1, 2, 3, 4, 5], [0, 2, 1, 0, 2], [0, 2, 3, 5])
  const ThreeB := CrsMatrix([7, 8, 9, 1, 6, 5, 4], [0, 1, 2, 1, 0, 1, 2], [0, 3, 4, 7])

  lemma ThreeCompatible()
    ensures Compatible(ThreeA, ThreeB, 3)
  {
  }

  /** a_val times the first row of B, [7, 8, 9], added onto zeros. */
  lemma ThreeFirstRowOfB(aVal: int)
    ensures Compatible(ThreeA, ThreeB, 3)
    ensures AddScaledRow([0, 0, 0], aVal, ThreeB, 0, 3) == [7 * aVal, 8 * aVal, 9 * aVal]
  {
    ThreeCompatible();
    assert AddScaledRow([0, 0, 0], aVal, ThreeB, 0, 1) == [7 * aVal, 0, 0];
    assert AddScaledRow([0, 0, 0], aVal, ThreeB, 0, 2) == [7 * aVal, 8 * aVal, 0];
  }

  /** a_val times the last row of B, [6, 5, 4], added onto t. */
  lemma ThreeLastRowOfB(t: seq<int>, aVal: int)
    requires |t| == 3
    ensures Compatible(ThreeA, ThreeB, 3)
    ensures AddScaledRow(t, aVal, ThreeB, 4, 7) == [t[0] + 6 * aVal, t[1] + 5 * aVal, t[2] + 4 * aVal]
  {
    ThreeCompatible();
    assert AddScaledRow(t, aVal, ThreeB, 4, 5) == [t[0] + 6 * aVal, t[1], t[2]];
    assert AddScaledRow(t, aVal, ThreeB, 4, 6) == [t[0] + 6 * aVal, t[1] + 5 * aVal, t[2]];
  }

  lemma ThreeDense0()
    ensures Compatible(ThreeA, ThreeB, 3) && DenseRow(ThreeA, ThreeB, 3, 0) == [19, 18, 17]
  {
    ThreeFirstRowOfB(1);
    ThreeLastRowOfB([7, 8, 9], 2);
    assert Accumulated(ThreeA, ThreeB, 3, 0, 1) == [7, 8, 9];
  }

  lemma ThreeDense1()
    ensures Compatible(ThreeA, ThreeB, 3) && DenseRow(ThreeA, ThreeB, 3, 1) == [0, 3, 0]
  {
    ThreeCompatible();
    assert AddScaledRow([0, 0, 0], 3, ThreeB, 3, 4) == [0, 3, 0];
  }

  lemma ThreeDense2()
    ensures Compatible(ThreeA, ThreeB, 3) && DenseRow(ThreeA, ThreeB, 3, 2) == [58, 57, 56]
  {
    ThreeFirstRowOfB(4);
    ThreeLastRowOfB([28, 32, 36], 5);
    assert Accumulated(ThreeA, ThreeB, 3, 2, 4) == [28, 32, 36];
  }

  /** The scan keeps a nonzero cell n - 1 after the cells before it. */
  lemma NonZerosKeep(temp: seq<int>, n: int, before: RowEntries)
    requires 0 < n <= |temp| && temp[n - 1] != 0 && NonZeros(temp, n - 1) == before
    ensures NonZeros(temp, n) == RowEntries(before.values + [temp[n - 1]], before.cols + [n - 1])
  {
  }

  lemma NonZerosFirst()
    ensures NonZeros([19, 18, 17], 3) == RowEntries([19, 18, 17], [0, 1, 2])
  {
    var t := [19, 18, 17];
    assert [] + [19] == [19] && [] + [0] == [0];
    assert [19] + [18] == [19, 18] && [0] + [1] == [0, 1];
    assert [19, 18] + [17] == [19, 18, 17] && [0, 1] + [2] == [0, 1, 2];
    NonZerosKeep(t, 1, RowEntries([], []));
    NonZerosKeep(t, 2, RowEntries([19], [0]));
    NonZerosKeep(t, 3, RowEntries([19, 18], [0, 1]));
  }

  lemma NonZerosLast()
    ensures NonZeros([58, 57, 56], 3) == RowEntries([58, 57, 56], [0, 1, 2])
  {
    var t := [58, 57, 56];
    assert [] + [58] == [58] && [] + [0] == [0];
    assert [58] + [57] == [58, 57] && [0] + [1] == [0, 1];
    assert [58, 57] + [56] == [58, 57, 56] && [0, 1] + [2] == [0, 1, 2];
    NonZerosKeep(t, 1, RowEntries([], []));
    NonZerosKeep(t, 2, RowEntries([58], [0]));
    NonZerosKeep(t, 3, RowEntries([58, 57], [0, 1]));
  }

  lemma NonZerosMiddle()
    ensures NonZeros([0, 3, 0], 3) == RowEntries([3], [1])
  {
    assert NonZeros([0, 3, 0], 1) == RowEntries([], []);
    assert NonZeros([0, 3, 0], 2) == RowEntries([3], [1]);
  }

  lemma ThreeRow0()
    ensures Compatible(ThreeA, ThreeB, 3) && RowOf(ThreeA, ThreeB, 3, 0) == RowEntries([19, 18, 17], [0, 1, 2])
  {
    ThreeDense0();
    NonZerosFirst();
  }

  lemma ThreeRow1()
    ensures Compatible(ThreeA, ThreeB, 3) && RowOf(ThreeA, ThreeB, 3, 1) == RowEntries([3], [1])
  {
    ThreeDense1();
    NonZerosMiddle();
  }

  lemma ThreeRow2()
    ensures Compatible(ThreeA, ThreeB, 3) && RowOf(ThreeA, ThreeB, 3, 2) == RowEntries([58, 57, 56], [0, 1, 2])
  {
    ThreeDense2();
    NonZerosLast();
  }

  lemma ThreeFirstRow()
    ensures Compatible(ThreeA, ThreeB, 3)
    ensures Product(ThreeA, ThreeB, 3, 0, 1) == CrsMatrix([19, 18, 17], [0, 1, 2], [0, 3])
  {
    AppendLiteral([], [], [0], [19, 18, 17], [0, 1, 2], [0, 3]);
    assert [] + [19, 18, 17] == [19, 18, 17] && [] + [0, 1, 2] == [0, 1, 2];
    ThreeRow0();
    ProductEmpty(ThreeA, ThreeB, 3, 0);
    ProductStep(ThreeA, ThreeB, 3, 0, 1, CrsMatrix([], [], [0]), RowEntries([19, 18, 17], [0, 1, 2]),
                CrsMatrix([19, 18, 17], [0, 1, 2], [0, 3]));
  }

  lemma ThreeFirstRows()
    ensures Compatible(ThreeA, ThreeB, 3)
    ensures Product(ThreeA, ThreeB, 3, 0, 2) == CrsMatrix([19, 18, 17, 3], [0, 1, 2, 1], [0, 3, 4])
  {
    AppendLiteral([19, 18, 17], [0, 1, 2], [0, 3], [3], [1], [0, 3, 4]);
    assert [19, 18, 17] + [3] == [19, 18, 17, 3] && [0, 1, 2] + [1] == [0, 1, 2, 1];
    ThreeFirstRow();
    ThreeRow1();
    ProductStep(ThreeA, ThreeB, 3, 0, 2, CrsMatrix([19, 18, 17], [0, 1, 2], [0, 3]), RowEntries([3], [1]),
                CrsMatrix([19, 18, 17, 3], [0, 1, 2, 1], [0, 3, 4]));
  }

  /**
   * The distributed task's 3 x 3 functional test: C = [[19, 18, 17],
   * [0, 3, 0], [58, 57, 56]] in CRS form.
   */
  lemma ThreeExample()
    ensures Compatible(ThreeA, ThreeB, 3)
    ensures Product(ThreeA, ThreeB, 3, 0, 3)
         == CrsMatrix([19, 18, 17, 3, 58, 57, 56], [0, 1, 2, 1, 0, 1, 2], [0, 3, 4, 7])
  {
    AppendLiteral([19, 18, 17, 3], [0, 1, 2, 1], [0, 3, 4], [58, 57, 56], [0, 1, 2], [0, 3, 4, 7]);
    assert [19, 18, 17, 3] + [58, 57, 56] == [19, 18, 17, 3, 58, 57, 56];
    assert [0, 1, 2, 1] + [0, 1, 2] == [0, 1, 2, 1, 0, 1, 2];
    ThreeFirstRows();
    ThreeRow2();
    ProductStep(ThreeA, ThreeB, 3, 0, 3, CrsMatrix([19, 18, 17, 3], [0, 1, 2, 1], [0, 3, 4]), RowEntries([58, 57, 56], [0, 1, 2]),
                CrsMatrix([19, 18, 17, 3, 58, 57, 56], [0, 1, 2, 1, 0, 1, 2], [0, 3, 4, 7]));
  }
}
