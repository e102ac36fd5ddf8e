/**
 * Compressed-row storage (CRS) and what the sparse product kernel computes.
 *
 * A CRS matrix is three parallel arrays: `values` and `colIndex` hold the
 * stored entries row by row, and `rowPtr[i] .. rowPtr[i+1]` delimits row i.
 * The kernel of the borisov_s_crs_mul task multiplies A (M x N) by B (N x K)
 * row by row: a dense accumulator `temp[0..K)` receives a_val * b_val for
 * every stored (a_col, a_val) of A's row i and every stored (b_col, b_val) of
 * B's row a_col, and the nonzero accumulator cells are then appended in
 * ascending column order. This module states that computation as functions
 * (Accumulated, NonZeros, Product) and proves what it means.
 */
module Crs {
  import Dense

  datatype CrsMatrix = CrsMatrix(values: seq<int>, colIndex: seq<int>, rowPtr: seq<int>)

  /** The row count a CRS matrix carries: one less than the length of rowPtr. */
  function NRows(m: CrsMatrix): int
  {
    |m.rowPtr| - 1
  }

  /** Largest column index plus one (how the tasks derive a column count); 0 when there is none. */
  function ColumnCount(cols: seq<int>): (n: int)
    ensures forall k :: 0 <= k < |cols| ==> cols[k] < n
    ensures |cols| > 0 ==> exists k :: 0 <= k < |cols| && cols[k] == n - 1
    ensures |cols| == 0 ==> n == 0
    decreases |cols|
  {
    if |cols| == 0 then 0
    else if |cols| == 1 then cols[0] + 1
    else
      var m := ColumnCount(cols[..|cols| - 1]);
      if cols[|cols| - 1] + 1 > m then cols[|cols| - 1] + 1 else m
  }

  /**
   * The CRS invariants: rowPtr starts at 0, never decreases and ends at the
   * number of stored entries; values and colIndex have that length; every
   * column index lies in [0, ncols).
   */
  predicate WellFormed(m: CrsMatrix, ncols: int)
  {
    && |m.rowPtr| >= 1
    && m.rowPtr[0] == 0
    && (forall i, j :: 0 <= i <= j < |m.rowPtr| ==> m.rowPtr[i] <= m.rowPtr[j])
    && m.rowPtr[|m.rowPtr| - 1] == |m.values|
    && |m.values| == |m.colIndex|
    && (forall k :: 0 <= k < |m.colIndex| ==> 0 <= m.colIndex[k] < ncols)
  }

  /** Within row i the stored column indices strictly increase. */
  predicate RowSorted(m: CrsMatrix, i: int)
    requires 0 <= i < |m.rowPtr| - 1
  {
    forall p, q :: 0 <= m.rowPtr[i] <= p < q < m.rowPtr[i + 1] && q < |m.colIndex| ==> m.colIndex[p] < m.colIndex[q]
  }

  /** Within every row the stored column indices strictly increase. */
  predicate SortedRows(m: CrsMatrix)
  {
    forall i :: 0 <= i < |m.rowPtr| - 1 ==> RowSorted(m, i)
  }

  /** What the kernel needs of its operands: A's columns name rows of B, B's columns lie below ncols. */
  predicate Compatible(a: CrsMatrix, b: CrsMatrix, ncols: int)
  {
    WellFormed(a, NRows(b)) && WellFormed(b, ncols)
  }

  /** Row i of a well-formed matrix is a valid slice of values and colIndex. */
  lemma RowBounds(m: CrsMatrix, ncols: int, i: int)
    requires WellFormed(m, ncols) && 0 <= i < NRows(m)
    ensures 0 <= m.rowPtr[i] <= m.rowPtr[i + 1] <= |m.values|
  {
    assert m.rowPtr[0] <= m.rowPtr[i] <= m.rowPtr[i + 1] <= m.rowPtr[|m.rowPtr| - 1];
  }

  function Zeros(n: nat): (z: seq<int>)
    ensures |z| == n && forall c :: 0 <= c < n ==> z[c] == 0
  {
    seq(n, _ => 0)
  }

  // ---------------------------------------------------------------------
  // The accumulation step, and the sum it computes
  // ---------------------------------------------------------------------

  /** The innermost loop: temp[b_col] += aVal * b_val for B's entries posB in [first, last). */
  function AddScaledRow(temp: seq<int>, aVal: int, b: CrsMatrix, first: int, last: int): (r: seq<int>)
    requires 0 <= first <= last <= |b.colIndex| && |b.values| == |b.colIndex|
    requires forall p :: first <= p < last ==> 0 <= b.colIndex[p] < |temp|
    ensures |r| == |temp|
    decreases last - first
  {
    if last == first then temp
    else
      var t := AddScaledRow(temp, aVal, b, first, last - 1);
      var col := b.colIndex[last - 1];
      t[col := t[col] + aVal * b.values[last - 1]]
  }

  /** Sum of aVal * b_val over B's entries posB in [first, last) whose column is col. */
  function PairSum(aVal: int, b: CrsMatrix, first: int, last: int, col: int): int
    requires 0 <= first <= last <= |b.colIndex| && |b.values| == |b.colIndex|
    decreases last - first
  {
    if last == first then 0
    else PairSum(aVal, b, first, last - 1, col) + (if b.colIndex[last - 1] == col then aVal * b.values[last - 1] else 0)
  }

  /** The accumulator after A's entries rowPtr[i] .. upto of row i have been processed. */
  function Accumulated(a: CrsMatrix, b: CrsMatrix, ncols: nat, i: int, upto: int): (t: seq<int>)
    requires Compatible(a, b, ncols) && 0 <= i < NRows(a)
    requires a.rowPtr[i] <= upto <= a.rowPtr[i + 1]
    ensures |t| == ncols
    decreases upto - a.rowPtr[i]
  {
    if upto == a.rowPtr[i] then Zeros(ncols)
    else
      RowBounds(a, NRows(b), i);
      var k := a.colIndex[upto - 1];
      RowBounds(b, ncols, k);
      AddScaledRow(Accumulated(a, b, ncols, i, upto - 1), a.values[upto - 1], b, b.rowPtr[k], b.rowPtr[k + 1])
  }

  /**
   * The product entry as a sum: over A's entries rowPtr[i] .. upto of row i,
   * and over B's entries of row a_col with column col, of a_val * b_val.
   */
  function EntrySum(a: CrsMatrix, b: CrsMatrix, ncols: nat, i: int, upto: int, col: int): int
    requires Compatible(a, b, ncols) && 0 <= i < NRows(a)
    requires a.rowPtr[i] <= upto <= a.rowPtr[i + 1]
    decreases upto - a.rowPtr[i]
  {
    if upto == a.rowPtr[i] then 0
    else
      RowBounds(a, NRows(b), i);
      var k := a.colIndex[upto - 1];
      RowBounds(b, ncols, k);
      EntrySum(a, b, ncols, i, upto - 1, col) + PairSum(a.values[upto - 1], b, b.rowPtr[k], b.rowPtr[k + 1], col)
  }

  /** Entry (i, col) of A * B: the sum over all of A's row i. */
  function Entry(a: CrsMatrix, b: CrsMatrix, ncols: nat, i: int, col: int): int
    requires Compatible(a, b, ncols) && 0 <= i < NRows(a) && 0 <= col < ncols
  {
    RowBounds(a, NRows(b), i);
    EntrySum(a, b, ncols, i, a.rowPtr[i + 1], col)
  }

  /** The accumulator once the whole of A's row i has been processed. */
  function DenseRow(a: CrsMatrix, b: CrsMatrix, ncols: nat, i: int): (t: seq<int>)
    requires Compatible(a, b, ncols) && 0 <= i < NRows(a)
    ensures |t| == ncols
  {
    RowBounds(a, NRows(b), i);
    Accumulated(a, b, ncols, i, a.rowPtr[i + 1])
  }

  /** One accumulation pass adds exactly the matching products to each cell. */
  lemma {:induction false} AddScaledRowAt(temp: seq<int>, aVal: int, b: CrsMatrix, first: int, last: int, col: int)
    requires 0 <= first <= last <= |b.colIndex| && |b.values| == |b.colIndex|
    requires forall p :: first <= p < last ==> 0 <= b.colIndex[p] < |temp|
    requires 0 <= col < |temp|
    ensures AddScaledRow(temp, aVal, b, first, last)[col] == temp[col] + PairSum(aVal, b, first, last, col)
    decreases last - first
  {
    if last > first {
      AddScaledRowAt(temp, aVal, b, first, last - 1, col);
    }
  }

  /** The accumulator cell col holds the partial entry sum, at every point of the row. */
  lemma {:induction false} AccumulatedAt(a: CrsMatrix, b: CrsMatrix, ncols: nat, i: int, upto: int, col: int)
    requires Compatible(a, b, ncols) && 0 <= i < NRows(a) && 0 <= col < ncols
    requires a.rowPtr[i] <= upto <= a.rowPtr[i + 1]
    ensures Accumulated(a, b, ncols, i, upto)[col] == EntrySum(a, b, ncols, i, upto, col)
    decreases upto - a.rowPtr[i]
  {
    if upto > a.rowPtr[i] {
      RowBounds(a, NRows(b), i);
      var k := a.colIndex[upto - 1];
      RowBounds(b, ncols, k);
      AccumulatedAt(a, b, ncols, i, upto - 1, col);
      AddScaledRowAt(Accumulated(a, b, ncols, i, upto - 1), a.values[upto - 1], b, b.rowPtr[k], b.rowPtr[k + 1], col);
    }
  }

  /** After a whole row, accumulator cell col is exactly entry (i, col) of the product. */
  lemma DenseRowAt(a: CrsMatrix, b: CrsMatrix, ncols: nat, i: int, col: int)
    requires Compatible(a, b, ncols) && 0 <= i < NRows(a) && 0 <= col < ncols
    ensures DenseRow(a, b, ncols, i)[col] == Entry(a, b, ncols, i, col)
  {
    RowBounds(a, NRows(b), i);
    AccumulatedAt(a, b, ncols, i, a.rowPtr[i + 1], col);
  }

  // ---------------------------------------------------------------------
  // Compressing the accumulator, and the product as a whole
  // ---------------------------------------------------------------------

  /** The entries a row contributes to C: values and their columns. */
  datatype RowEntries = RowEntries(values: seq<int>, cols: seq<int>)

  /** The nonzero cells among temp[0..n), in ascending column order, as the scan loop appends them. */
  function NonZeros(temp: seq<int>, n: int): (r: RowEntries)
    requires 0 <= n <= |temp|
    ensures |r.values| == |r.cols| <= n
    decreases n
  {
    if n == 0 then RowEntries([], [])
    else
      var r := NonZeros(temp, n - 1);
      if temp[n - 1] != 0 then RowEntries(r.values + [temp[n - 1]], r.cols + [n - 1]) else r
  }

  /**
   * The scan keeps exactly the nonzero cells: every kept column is below n
   * and holds its nonzero value, the columns ascend, and no nonzero cell is
   * skipped.
   */
  lemma {:induction false} NonZerosSpec(temp: seq<int>, n: int)
    requires 0 <= n <= |temp|
    ensures forall k :: 0 <= k < |NonZeros(temp, n).cols| ==>
      && 0 <= NonZeros(temp, n).cols[k] < n
      && NonZeros(temp, n).values[k] == temp[NonZeros(temp, n).cols[k]] != 0
    ensures forall k, l :: 0 <= k < l < |NonZeros(temp, n).cols| ==> NonZeros(temp, n).cols[k] < NonZeros(temp, n).cols[l]
    ensures forall c :: 0 <= c < n && temp[c] != 0 ==> c in NonZeros(temp, n).cols
    decreases n
  {
    if n > 0 {
      NonZerosSpec(temp, n - 1);
      var r0, r := NonZeros(temp, n - 1), NonZeros(temp, n);
      if temp[n - 1] != 0 {
        assert r == RowEntries(r0.values + [temp[n - 1]], r0.cols + [n - 1]);
        forall c | 0 <= c < n && temp[c] != 0
          ensures c in r.cols
        {
          if c < n - 1 {
            assert c in r0.cols;
          } else {
            assert r.cols[|r0.cols|] == c;
          }
        }
      }
    }
  }

  /** One more cell of the scan: a nonzero cell is appended, a zero one skipped. */
  lemma NonZerosStep(temp: seq<int>, n: int)
    requires 0 <= n < |temp|
    ensures temp[n] != 0 ==>
      NonZeros(temp, n + 1) == RowEntries(NonZeros(temp, n).values + [temp[n]], NonZeros(temp, n).cols + [n])
    ensures temp[n] == 0 ==> NonZeros(temp, n + 1) == NonZeros(temp, n)
  {
  }

  /** A row's entries are well formed: as many values as columns, columns in [0, ncols) and ascending. */
  predicate RowValid(row: RowEntries, ncols: int)
  {
    && |row.values| == |row.cols|
    && (forall k :: 0 <= k < |row.cols| ==> 0 <= row.cols[k] < ncols)
    && (forall k, l :: 0 <= k < l < |row.cols| ==> row.cols[k] < row.cols[l])
  }

  /** The entries the kernel emits for row i of C. */
  function RowOf(a: CrsMatrix, b: CrsMatrix, ncols: nat, i: int): (row: RowEntries)
    requires Compatible(a, b, ncols) && 0 <= i < NRows(a)
    ensures RowValid(row, ncols)
  {
    var t := DenseRow(a, b, ncols, i);
    NonZerosSpec(t, ncols);
    var r := NonZeros(t, ncols);
    assert forall k :: 0 <= k < |r.cols| ==> 0 <= r.cols[k] < ncols;
    r
  }

  /** c with one more row: the row's entries are appended and rowPtr gains the new entry count. */
  function AppendRow(c: CrsMatrix, row: RowEntries): (r: CrsMatrix)
    ensures |r.rowPtr| == |c.rowPtr| + 1 && r.rowPtr[..|c.rowPtr|] == c.rowPtr
    ensures r.rowPtr[|c.rowPtr|] == |r.values|
  {
    CrsMatrix(c.values + row.values, c.colIndex + row.cols, c.rowPtr + [|c.values| + |row.values|])
  }

  /** The rows a list of row entries makes, in CRS form with rowPtr counted from 0. */
  function Build(rows: seq<RowEntries>): (c: CrsMatrix)
    ensures |c.rowPtr| == |rows| + 1 && c.rowPtr[0] == 0 && c.rowPtr[|rows|] == |c.values|
    ensures (forall k :: 0 <= k < |rows| ==> |rows[k].values| == |rows[k].cols|) ==> |c.values| == |c.colIndex|
    decreases |rows|
  {
    if |rows| == 0 then CrsMatrix([], [], [0])
    else AppendRow(Build(rows[..|rows| - 1]), rows[|rows| - 1])
  }

  /** The entries the kernel emits for rows lo .. hi of C, in order. */
  function Rows(a: CrsMatrix, b: CrsMatrix, ncols: nat, lo: int, hi: int): (rs: seq<RowEntries>)
    requires Compatible(a, b, ncols) && 0 <= lo <= hi <= NRows(a)
    ensures |rs| == hi - lo
    ensures forall k :: 0 <= k < |rs| ==> rs[k] == RowOf(a, b, ncols, lo + k) && RowValid(rs[k], ncols)
  {
    seq(hi - lo, k requires 0 <= k < hi - lo => RowOf(a, b, ncols, lo + k))
  }

  /**
   * Rows lo .. hi of C = A * B in CRS form, with rowPtr counted from 0: rows
   * are appended in order, and rowPtr records the running entry count.
   */
  function Product(a: CrsMatrix, b: CrsMatrix, ncols: nat, lo: int, hi: int): (c: CrsMatrix)
    requires Compatible(a, b, ncols) && 0 <= lo <= hi <= NRows(a)
    ensures |c.rowPtr| == hi - lo + 1 && c.rowPtr[0] == 0
    ensures |c.values| == |c.colIndex| == c.rowPtr[hi - lo]
  {
    Build(Rows(a, b, ncols, lo, hi))
  }

  /** The product over one more row is the shorter product with that row appended: what each pass of the row loop does. */
  lemma ProductSnoc(a: CrsMatrix, b: CrsMatrix, ncols: nat, lo: int, hi: int)
    requires Compatible(a, b, ncols) && 0 <= lo < hi <= NRows(a)
    ensures Product(a, b, ncols, lo, hi) == AppendRow(Product(a, b, ncols, lo, hi - 1), RowOf(a, b, ncols, hi - 1))
  {
    var rs := Rows(a, b, ncols, lo, hi);
    assert rs == Rows(a, b, ncols, lo, hi - 1) + [RowOf(a, b, ncols, hi - 1)];
    BuildSnoc(rs, Rows(a, b, ncols, lo, hi - 1), RowOf(a, b, ncols, hi - 1));
  }

  /** The product over no rows is the empty matrix with rowPtr [0]. */
  lemma ProductEmpty(a: CrsMatrix, b: CrsMatrix, ncols: nat, lo: int)
    requires Compatible(a, b, ncols) && 0 <= lo <= NRows(a)
    ensures Product(a, b, ncols, lo, lo) == CrsMatrix([], [], [0])
  {
  }

  /** Appending a valid row keeps the CRS invariants and sorted rows, and leaves the earlier rows alone. */
  lemma AppendRowWellFormed(c: CrsMatrix, row: RowEntries, ncols: int)
    requires WellFormed(c, ncols) && SortedRows(c) && RowValid(row, ncols)
    ensures var r := AppendRow(c, row);
      && WellFormed(r, ncols) && SortedRows(r) && NRows(r) == NRows(c) + 1
      && c.values <= r.values && c.colIndex <= r.colIndex
      && r.values[|c.values|..] == row.values && r.colIndex[|c.colIndex|..] == row.cols
  {
    var r := AppendRow(c, row);
    var n := |c.rowPtr|;
    assert r.rowPtr[n - 1] == |c.values|;
    forall i, j | 0 <= i <= j < |r.rowPtr| ensures r.rowPtr[i] <= r.rowPtr[j] {
      if j < n {
        assert r.rowPtr[i] == c.rowPtr[i] && r.rowPtr[j] == c.rowPtr[j];
      } else if i < n {
        assert r.rowPtr[i] == c.rowPtr[i] <= c.rowPtr[n - 1];
      }
    }
    forall k | 0 <= k < |r.colIndex| ensures 0 <= r.colIndex[k] < ncols {
      if k >= |c.colIndex| {
        assert r.colIndex[k] == row.cols[k - |c.colIndex|];
      } else {
        assert r.colIndex[k] == c.colIndex[k];
      }
    }
    forall i | 0 <= i < |r.rowPtr| - 1 ensures RowSorted(r, i) {
      if i < n - 1 {
        assert r.rowPtr[i] == c.rowPtr[i] && r.rowPtr[i + 1] == c.rowPtr[i + 1];
        assert RowSorted(c, i);
        forall x, y | 0 <= r.rowPtr[i] <= x < y < r.rowPtr[i + 1] && y < |r.colIndex|
          ensures r.colIndex[x] < r.colIndex[y]
        {
          assert r.colIndex[x] == c.colIndex[x] && r.colIndex[y] == c.colIndex[y];
        }
      } else {
        forall x, y | 0 <= r.rowPtr[i] <= x < y < r.rowPtr[i + 1] && y < |r.colIndex|
          ensures r.colIndex[x] < r.colIndex[y]
        {
          assert r.colIndex[x] == row.cols[x - |c.colIndex|];
          assert r.colIndex[y] == row.cols[y - |c.colIndex|];
        }
      }
    }
  }

  /** Valid rows build a well-formed matrix with sorted rows. */
  lemma {:induction false} BuildWellFormed(rows: seq<RowEntries>, ncols: int)
    requires forall k :: 0 <= k < |rows| ==> RowValid(rows[k], ncols)
    ensures WellFormed(Build(rows), ncols) && SortedRows(Build(rows)) && NRows(Build(rows)) == |rows|
    decreases |rows|
  {
    if |rows| > 0 {
      BuildWellFormed(rows[..|rows| - 1], ncols);
      AppendRowWellFormed(Build(rows[..|rows| - 1]), rows[|rows| - 1], ncols);
    }
  }

  /** Every product satisfies the CRS invariants, with columns in [0, ncols) and ascending in each row. */
  lemma ProductWellFormed(a: CrsMatrix, b: CrsMatrix, ncols: nat, lo: int, hi: int)
    requires Compatible(a, b, ncols) && 0 <= lo <= hi <= NRows(a)
    ensures WellFormed(Product(a, b, ncols, lo, hi), ncols)
    ensures SortedRows(Product(a, b, ncols, lo, hi))
    ensures NRows(Product(a, b, ncols, lo, hi)) == hi - lo
  {
    BuildWellFormed(Rows(a, b, ncols, lo, hi), ncols);
  }

  /** Building fewer rows gives a prefix of building more. */
  lemma {:induction false} BuildPrefix(rows: seq<RowEntries>, n: int)
    requires 0 <= n <= |rows|
    ensures var s, l := Build(rows[..n]), Build(rows);
      && l.rowPtr[..n + 1] == s.rowPtr
      && s.values <= l.values && s.colIndex <= l.colIndex
    decreases |rows| - n
  {
    if n < |rows| {
      var m := |rows| - 1;
      assert rows[..m][..n] == rows[..n];
      BuildPrefix(rows[..m], n);
      var p := Build(rows[..m]);
      var l := Build(rows);
      assert l.rowPtr[..m + 1] == p.rowPtr;
      assert l.rowPtr[..n + 1] == p.rowPtr[..n + 1];
    } else {
      assert rows[..n] == rows;
    }
  }

  /** Row k of a built matrix holds exactly rows[k]'s entries. */
  lemma BuildRow(rows: seq<RowEntries>, k: int)
    requires 0 <= k < |rows| && forall j :: 0 <= j < |rows| ==> |rows[j].values| == |rows[j].cols|
    ensures var c := Build(rows);
      && 0 <= c.rowPtr[k] <= c.rowPtr[k + 1] <= |c.values|
      && c.values[c.rowPtr[k] .. c.rowPtr[k + 1]] == rows[k].values
      && c.colIndex[c.rowPtr[k] .. c.rowPtr[k + 1]] == rows[k].cols
  {
    BuildPrefix(rows, k + 1);
    var s := Build(rows[..k + 1]);
    var p := Build(rows[..k]);
    var c := Build(rows);
    assert rows[..k + 1][..k] == rows[..k];
    assert s == AppendRow(p, rows[k]);
    assert s.rowPtr[k] == p.rowPtr[k] == |p.values|;
    assert c.rowPtr[k] == s.rowPtr[k];
    assert c.rowPtr[k + 1] == s.rowPtr[k + 1] == |s.values|;
    assert c.values[..|s.values|] == s.values;
    assert c.colIndex[..|s.colIndex|] == s.colIndex;
  }

  /** Row i of the product (relative index i - lo) holds exactly the row's emitted entries. */
  lemma ProductRow(a: CrsMatrix, b: CrsMatrix, ncols: nat, lo: int, hi: int, i: int)
    requires Compatible(a, b, ncols) && 0 <= lo <= i < hi <= NRows(a)
    ensures var c, row := Product(a, b, ncols, lo, hi), RowOf(a, b, ncols, i);
      && 0 <= c.rowPtr[i - lo] <= c.rowPtr[i - lo + 1] <= |c.values|
      && c.values[c.rowPtr[i - lo] .. c.rowPtr[i - lo + 1]] == row.values
      && c.colIndex[c.rowPtr[i - lo] .. c.rowPtr[i - lo + 1]] == row.cols
  {
    var rs := Rows(a, b, ncols, lo, hi);
    var c, row := Product(a, b, ncols, lo, hi), RowOf(a, b, ncols, i);
    assert c == Build(rs);
    assert rs[i - lo] == row;
    forall j | 0 <= j < |rs|
      ensures |rs[j].values| == |rs[j].cols|
    {
      assert RowValid(rs[j], ncols);
    }
    BuildRow(rs, i - lo);
  }

  /**
   * A slice [s, e) of c that holds the nonzero cells of temp: column col
   * occurs in it exactly when temp[col] is nonzero, and then with value temp[col].
   */
  lemma SliceNonZeros(c: CrsMatrix, temp: seq<int>, s: int, e: int, col: int)
    requires 0 <= s <= e <= |c.values| && |c.values| == |c.colIndex| && 0 <= col < |temp|
    requires c.values[s..e] == NonZeros(temp, |temp|).values && c.colIndex[s..e] == NonZeros(temp, |temp|).cols
    ensures (exists p :: s <= p < e && c.colIndex[p] == col) <==> temp[col] != 0
    ensures forall p :: (s <= p < e && c.colIndex[p] == col) ==> c.values[p] == temp[col]
  {
    var row := NonZeros(temp, |temp|);
    NonZerosSpec(temp, |temp|);
    SliceAt(c, row, s, e);
    if temp[col] != 0 {
      assert col in row.cols;
      var k :| 0 <= k < |row.cols| && row.cols[k] == col;
      assert c.colIndex[s + k] == col;
    }
  }

  /** Position p of a slice [s, e) of c that equals row is position p - s of row. */
  lemma SliceAt(c: CrsMatrix, row: RowEntries, s: int, e: int)
    requires 0 <= s <= e <= |c.values| && |c.values| == |c.colIndex|
    requires c.values[s..e] == row.values && c.colIndex[s..e] == row.cols
    ensures forall p :: s <= p < e ==> c.colIndex[p] == row.cols[p - s] && c.values[p] == row.values[p - s]
  {
    forall p | s <= p < e ensures c.colIndex[p] == row.cols[p - s] && c.values[p] == row.values[p - s] {
      assert c.colIndex[s..e][p - s] == c.colIndex[p];
      assert c.values[s..e][p - s] == c.values[p];
    }
  }

  /**
   * The entry characterisation: within row i of C, column col is stored if and
   * only if entry (i, col) of A * B is nonzero, and then its value is that entry.
   */
  lemma ProductEntry(a: CrsMatrix, b: CrsMatrix, ncols: nat, lo: int, hi: int, i: int, col: int)
    requires Compatible(a, b, ncols) && 0 <= lo <= i < hi <= NRows(a) && 0 <= col < ncols
    ensures var c := Product(a, b, ncols, lo, hi);
      && 0 <= c.rowPtr[i - lo] <= c.rowPtr[i - lo + 1] <= |c.values|
      && ((exists p :: c.rowPtr[i - lo] <= p < c.rowPtr[i - lo + 1] && c.colIndex[p] == col)
          <==> Entry(a, b, ncols, i, col) != 0)
      && (forall p :: (c.rowPtr[i - lo] <= p < c.rowPtr[i - lo + 1] && c.colIndex[p] == col)
            ==> c.values[p] == Entry(a, b, ncols, i, col))
  {
    ProductRow(a, b, ncols, lo, hi, i);
    DenseRowAt(a, b, ncols, i, col);
    var c := Product(a, b, ncols, lo, hi);
    SliceNonZeros(c, DenseRow(a, b, ncols, i), c.rowPtr[i - lo], c.rowPtr[i - lo + 1], col);
  }

  // ---------------------------------------------------------------------
  // Splicing fragments
  // ---------------------------------------------------------------------

  /** s with offset added to every element. */
  function Shift(s: seq<int>, offset: int): (r: seq<int>)
    ensures |r| == |s| && forall k :: 0 <= k < |s| ==> r[k] == s[k] + offset
  {
    seq(|s|, k requires 0 <= k < |s| => s[k] + offset)
  }

  /**
   * Appending fragment f to c: values and columns are concatenated, and f's
   * rowPtr from index 1 on is appended, shifted by c's last rowPtr entry.
   */
  function Splice(c: CrsMatrix, f: CrsMatrix): (r: CrsMatrix)
    requires |c.rowPtr| >= 1 && |f.rowPtr| >= 1
    ensures |r.rowPtr| == |c.rowPtr| + |f.rowPtr| - 1
  {
    CrsMatrix(c.values + f.values, c.colIndex + f.colIndex, c.rowPtr + Shift(f.rowPtr[1..], c.rowPtr[|c.rowPtr| - 1]))
  }

  /** Splicing commutes with appending a row to the fragment, when c's rowPtr ends at its entry count. */
  lemma SpliceAppend(c: CrsMatrix, f: CrsMatrix, row: RowEntries)
    requires |c.rowPtr| >= 1 && |f.rowPtr| >= 1 && c.rowPtr[|c.rowPtr| - 1] == |c.values|
    ensures Splice(c, AppendRow(f, row)) == AppendRow(Splice(c, f), row)
  {
    var off := c.rowPtr[|c.rowPtr| - 1];
    var g := AppendRow(f, row);
    assert g.rowPtr[1..] == f.rowPtr[1..] + [|f.values| + |row.values|];
    assert Shift(g.rowPtr[1..], off) == Shift(f.rowPtr[1..], off) + [off + |f.values| + |row.values|];
    assert c.values + g.values == (c.values + f.values) + row.values;
    assert c.colIndex + g.colIndex == (c.colIndex + f.colIndex) + row.cols;
  }

  /** The inductive step of SpliceBuild on abstract matrices: appending one row to both sides keeps a splice equation. */
  lemma SpliceStep(c: CrsMatrix, f: CrsMatrix, w: CrsMatrix, row: RowEntries)
    requires |c.rowPtr| >= 1 && |f.rowPtr| >= 1 && c.rowPtr[|c.rowPtr| - 1] == |c.values|
    requires Splice(c, f) == w
    ensures Splice(c, AppendRow(f, row)) == AppendRow(w, row)
  {
    SpliceAppend(c, f, row);
  }

  /** Splicing an empty fragment changes nothing. */
  lemma SpliceEmpty(c: CrsMatrix)
    requires |c.rowPtr| >= 1
    ensures Splice(c, CrsMatrix([], [], [0])) == c
  {
    assert c.values + [] == c.values && c.colIndex + [] == c.colIndex;
    assert c.rowPtr + Shift([], c.rowPtr[|c.rowPtr| - 1]) == c.rowPtr;
  }

  /** Build of a list that ends in `row` appends row to Build of the rest. */
  lemma BuildSnoc(rows: seq<RowEntries>, init: seq<RowEntries>, row: RowEntries)
    requires rows == init + [row]
    ensures Build(rows) == AppendRow(Build(init), row)
  {
    assert rows[..|rows| - 1] == init;
  }

  /** Splicing the matrices built from two row lists gives the matrix built from their concatenation. */
  lemma {:induction false} SpliceBuild(r1: seq<RowEntries>, r2: seq<RowEntries>)
    ensures Splice(Build(r1), Build(r2)) == Build(r1 + r2)
    decreases |r2|
  {
    if |r2| == 0 {
      assert r1 + r2 == r1;
      SpliceEmpty(Build(r1));
    } else {
      var m := |r2| - 1;
      BuildSnoc(r1 + r2, r1 + r2[..m], r2[m]);
      BuildSnoc(r2, r2[..m], r2[m]);
      SpliceBuild(r1, r2[..m]);
      SpliceStep(Build(r1), Build(r2[..m]), Build(r1 + r2[..m]), r2[m]);
    }
  }

  /** The rows of two adjacent ranges, concatenated, are the rows of their union. */
  lemma RowsSplit(a: CrsMatrix, b: CrsMatrix, ncols: nat, lo: int, mid: int, hi: int)
    requires Compatible(a, b, ncols) && 0 <= lo <= mid <= hi <= NRows(a)
    ensures Rows(a, b, ncols, lo, mid) + Rows(a, b, ncols, mid, hi) == Rows(a, b, ncols, lo, hi)
  {
  }

  /** Splicing the products of two adjacent row ranges gives the product of their union. */
  lemma SpliceProduct(a: CrsMatrix, b: CrsMatrix, ncols: nat, lo: int, mid: int, hi: int)
    requires Compatible(a, b, ncols) && 0 <= lo <= mid <= hi <= NRows(a)
    ensures Splice(Product(a, b, ncols, lo, mid), Product(a, b, ncols, mid, hi)) == Product(a, b, ncols, lo, hi)
  {
    RowsSplit(a, b, ncols, lo, mid, hi);
    SpliceBuild(Rows(a, b, ncols, lo, mid), Rows(a, b, ncols, mid, hi));
  }
}
