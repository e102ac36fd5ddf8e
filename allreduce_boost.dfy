/**
 * The parallel class of plekhanov_d_allreduce_boost: rows are scattered in
 * contiguous blocks, the last rows % size ranks taking one row more; each
 * rank scans its block row by row from INT_MAX, an all-reduce with minimum
 * combines the ranks' minima, each rank counts the entries of its block
 * above them, and an all-reduce with plus sums the counts on every rank.
 *
 * The world of `size` ranks is modelled as loops over r = 0 .. size - 1;
 * scatterv and all_reduce become the functions Scatterv, ReduceMin and
 * ReduceSum.
 */
module AllreduceBoost {
  import opened Task
  import opened ColumnMin
  import Dense

  /** Rows of rank r: lambda_1 = rows / size, plus one for the last lambda_2 = rows % size ranks. */
  function BlockRows(r: nat, size: nat, rows: nat): nat
    requires 1 <= size
  {
    rows / size + (if r >= size - rows % size then 1 else 0)
  }

  /** The first row of rank r's block: the rows of all lower ranks. */
  function FirstRow(r: nat, size: nat, rows: nat): nat
    requires 1 <= size
  {
    if r == 0 then 0 else FirstRow(r - 1, size, rows) + BlockRows(r - 1, size, rows)
  }

  /** In closed form: lambda_1 rows per lower rank, plus one per lower rank among the last lambda_2. */
  lemma {:induction false} FirstRowClosed(r: nat, size: nat, rows: nat)
    requires 1 <= size && r <= size
    ensures FirstRow(r, size, rows) == r * (rows / size) + (if r > size - rows % size then r - (size - rows % size) else 0)
    decreases r
  {
    if r > 0 {
      FirstRowClosed(r - 1, size, rows);
      Dense.MulDistrib(r - 1, 1, rows / size);
    }
  }

  /** The blocks cover all rows, and none starts past the last row. */
  lemma FirstRowLast(size: nat, rows: nat)
    requires 1 <= size
    ensures FirstRow(size, size, rows) == rows
  {
    FirstRowClosed(size, size, rows);
    assert rows == size * (rows / size) + rows % size;
  }

  /** Blocks start in rank order, none past the last row. */
  lemma {:induction false} FirstRowBound(r: nat, s: nat, size: nat, rows: nat)
    requires 1 <= size && r <= s <= size
    ensures FirstRow(r, size, rows) <= FirstRow(s, size, rows) <= rows
    decreases size - r
  {
    if r < s {
      FirstRowBound(r + 1, s, size, rows);
    } else if s < size {
      FirstRowBound(s + 1, s + 1, size, rows);
    } else {
      FirstRowLast(size, rows);
    }
  }

  /** Rank r's stretch of a column of all rows: entries FirstRow(r) .. FirstRow(r + 1) - 1. */
  function Segment(col: seq<int>, size: nat, rows: nat, r: nat): (s: seq<int>)
    requires 1 <= size && r < size && |col| == rows
    ensures |s| == BlockRows(r, size, rows)
  {
    FirstRowBound(r, r + 1, size, rows);
    col[FirstRow(r, size, rows) .. FirstRow(r + 1, size, rows)]
  }

  /** The entries of ranks 0 .. k - 1 in a column of all rows. */
  function Covered(col: seq<int>, size: nat, rows: nat, k: nat): (s: seq<int>)
    requires 1 <= size && k <= size && |col| == rows
    ensures k == size ==> s == col
  {
    FirstRowBound(k, k, size, rows);
    FirstRowLast(size, rows);
    col[..FirstRow(k, size, rows)]
  }

  /** Rank k's segment continues what ranks 0 .. k - 1 cover. */
  lemma CoveredStep(col: seq<int>, size: nat, rows: nat, k: nat)
    requires 1 <= size && k < size && |col| == rows
    ensures Covered(col, size, rows, k + 1) == Covered(col, size, rows, k) + Segment(col, size, rows, k)
  {
    FirstRowBound(k, k + 1, size, rows);
    FirstRowBound(k + 1, k + 1, size, rows);
    var lo, hi := FirstRow(k, size, rows), FirstRow(k + 1, size, rows);
    assert col[..hi] == col[..lo] + col[lo..hi];
  }

  /** Rank r's element count: its rows times the column count. */
  function BlockSize(r: nat, size: nat, rows: nat, cols: nat): nat
    requires 1 <= size
  {
    BlockRows(r, size, rows) * cols
  }

  /**
   * The `size` vector: every rank starts with lambda_1 * cols elements and
   * the last lambda_2 ranks get cols more each.
   */
  method ScatterSizes(size: nat, rows: nat, cols: nat) returns (sizes: seq<int>)
    requires 1 <= size
    ensures |sizes| == size && forall r :: 0 <= r < size ==> sizes[r] == BlockSize(r, size, rows, cols)
  {
    var lambda1, lambda2 := rows / size, rows % size;
    sizes := seq(size, _ => lambda1 * cols);
    var i := 0;
    while i < lambda2
      invariant 0 <= i <= lambda2 && |sizes| == size
      invariant forall r :: 0 <= r < size ==> sizes[r] == (lambda1 + (if r >= size - i then 1 else 0)) * cols
    {
      sizes := sizes[size - i - 1 := sizes[size - i - 1] + cols];
      i := i + 1;
    }
  }

  /** Where rank r's elements start in the root's buffer: the sum of the lower ranks' counts. */
  function Displacement(sizes: seq<int>, r: nat): int
    requires r <= |sizes|
  {
    Sum(sizes[..r])
  }

  /** With the sizes ScatterSizes makes, rank r's elements start at its first row. */
  lemma {:induction false} DisplacementRows(sizes: seq<int>, size: nat, rows: nat, cols: nat, r: nat)
    requires 1 <= size && r <= size && |sizes| == size
    requires forall k :: 0 <= k < size ==> sizes[k] == BlockSize(k, size, rows, cols)
    ensures Displacement(sizes, r) == FirstRow(r, size, rows) * cols
    decreases r
  {
    if r > 0 {
      DisplacementRows(sizes, size, rows, cols, r - 1);
      assert sizes[..r][..r - 1] == sizes[..r - 1];
      Dense.MulDistrib(FirstRow(r - 1, size, rows), BlockRows(r - 1, size, rows), cols);
    }
  }

  /** Rank r's share of the root's buffer under the row blocks: rows FirstRow(r) .. FirstRow(r + 1) - 1. */
  function Block(data: seq<int>, size: nat, rows: nat, cols: nat, r: nat): (block: seq<int>)
    requires 1 <= size && r < size && rows * cols <= |data|
    ensures |block| == BlockRows(r, size, rows) * cols
  {
    var lo, hi := FirstRow(r, size, rows), FirstRow(r + 1, size, rows);
    FirstRowBound(r, r + 1, size, rows);
    Dense.MulMono(hi, rows, cols);
    Dense.MulDistrib(lo, BlockRows(r, size, rows), cols);
    data[FirstRow(r, size, rows) * cols .. FirstRow(r + 1, size, rows) * cols]
  }

  /**
   * `scatterv` with the `size` vector: rank r receives sizes[r] elements
   * from displacement Displacement(sizes, r) on, which is its row block.
   */
  function Scatterv(data: seq<int>, sizes: seq<int>, r: nat): (block: seq<int>)
    requires r < |sizes| && 0 <= Displacement(sizes, r) && 0 <= sizes[r]
    requires Displacement(sizes, r) + sizes[r] <= |data|
    ensures |block| == sizes[r]
  {
    data[Displacement(sizes, r) .. Displacement(sizes, r) + sizes[r]]
  }

  /** With the sizes ScatterSizes makes, scatterv hands every rank its row block. */
  lemma ScattervBlocks(data: seq<int>, sizes: seq<int>, size: nat, rows: nat, cols: nat, r: nat)
    requires 1 <= size && r < size && |sizes| == size && rows * cols <= |data|
    requires forall k :: 0 <= k < size ==> sizes[k] == BlockSize(k, size, rows, cols)
    ensures 0 <= Displacement(sizes, r) && 0 <= sizes[r] && Displacement(sizes, r) + sizes[r] <= |data|
    ensures Scatterv(data, sizes, r) == Block(data, size, rows, cols, r)
  {
    DisplacementRows(sizes, size, rows, cols, r);
    var lo, hi := FirstRow(r, size, rows), FirstRow(r + 1, size, rows);
    FirstRowBound(r, r + 1, size, rows);
    Dense.MulMono(hi, rows, cols);
    Dense.MulDistrib(lo, BlockRows(r, size, rows), cols);
  }

  /** A column of the first rows + 1 rows is the column of the first rows, then row `rows`'s entry. */
  lemma ColumnSnoc(data: seq<int>, cols: nat, c: nat, rows: nat)
    requires c < cols && (rows + 1) * cols <= |data|
    ensures rows * cols <= |data|
    ensures Column(data, cols, c, rows + 1) == Column(data, cols, c, rows) + [data[rows * cols + c]]
  {
    Dense.MulMono(rows, rows + 1, cols);
  }

  /** Row `rows` lowers column c's minimum by its own entry in that column. */
  lemma ColumnMinStep(data: seq<int>, cols: nat, c: nat, rows: nat)
    requires c < cols && (rows + 1) * cols <= |data|
    ensures rows * cols <= |data| && rows * cols + c < |data|
    ensures MinFrom(IntMax, Column(data, cols, c, rows + 1))
      == Min(MinFrom(IntMax, Column(data, cols, c, rows)), data[rows * cols + c])
  {
    ColumnSnoc(data, cols, c, rows);
    var col := Column(data, cols, c, rows + 1);
    assert col[..rows] == Column(data, cols, c, rows);
  }

  /** Row `rows` adds one to column c's count above m exactly when its entry exceeds m. */
  lemma ColumnCountStep(data: seq<int>, cols: nat, c: nat, rows: nat, m: int)
    requires c < cols && (rows + 1) * cols <= |data|
    ensures rows * cols <= |data| && rows * cols + c < |data|
    ensures CountAbove(Column(data, cols, c, rows + 1), m)
      == CountAbove(Column(data, cols, c, rows), m) + (if data[rows * cols + c] > m then 1 else 0)
  {
    ColumnSnoc(data, cols, c, rows);
    var col := Column(data, cols, c, rows + 1);
    assert col[..rows] == Column(data, cols, c, rows);
  }

  /** The column of rows lo .. lo + n - 1 cut out of a row-major buffer is that stretch of the whole column. */
  lemma SliceColumn(data: seq<int>, cols: nat, c: nat, lo: nat, n: nat)
    requires c < cols && (lo + n) * cols <= |data|
    ensures lo * cols + n * cols == (lo + n) * cols
    ensures Column(data[lo * cols .. lo * cols + n * cols], cols, c, n) == Column(data, cols, c, lo + n)[lo..]
  {
    Dense.MulDistrib(lo, n, cols);
    var part := Column(data[lo * cols .. lo * cols + n * cols], cols, c, n);
    var whole := Column(data, cols, c, lo + n);
    forall k | 0 <= k < n
      ensures part[k] == whole[lo + k]
    {
      SliceColumnAt(data, cols, c, lo, n, k);
    }
  }

  /** One entry of SliceColumn: entry k of the slice's column is entry lo + k of the whole column. */
  lemma SliceColumnAt(data: seq<int>, cols: nat, c: nat, lo: nat, n: nat, k: nat)
    requires c < cols && k < n && lo * cols + n * cols == (lo + n) * cols <= |data|
    ensures Column(data[lo * cols .. lo * cols + n * cols], cols, c, n)[k] == Column(data, cols, c, lo + n)[lo + k]
  {
    var slice := data[lo * cols .. lo * cols + n * cols];
    assert (lo + k) * cols + c == lo * cols + (k * cols + c) by {
      Dense.MulDistrib(lo, k, cols);
    }
    assert k * cols + c < |slice| by {
      Dense.FlatIndex(cols, k, c, n);
    }
    assert Column(slice, cols, c, n)[k] == slice[k * cols + c];
    assert Column(data, cols, c, lo + n)[lo + k] == data[(lo + k) * cols + c];
  }

  /** A column of a row block is the matching stretch of the whole column. */
  lemma ColumnOfBlock(data: seq<int>, size: nat, rows: nat, cols: nat, r: nat, c: nat)
    requires 1 <= size && r < size && rows * cols <= |data| && c < cols
    ensures Column(Block(data, size, rows, cols, r), cols, c, BlockRows(r, size, rows))
      == Segment(Column(data, cols, c, rows), size, rows, r)
  {
    FirstRowBound(r, r + 1, size, rows);
    var lo, n, hi := FirstRow(r, size, rows), BlockRows(r, size, rows), FirstRow(r + 1, size, rows);
    assert hi == lo + n;
    Dense.MulMono(hi, rows, cols);
    SliceColumn(data, cols, c, lo, n);
    assert Column(data, cols, c, hi) == Column(data, cols, c, rows)[..hi];
  }

  /**
   * One rank's first loop nest: if its block is not empty, go row by row
   * over the block and lower every column's INT_MAX-initialised minimum.
   */
  method LocalMinByRows(block: seq<int>, cols: nat, n: nat) returns (localMin: seq<int>)
    requires |block| == n * cols
    ensures |localMin| == cols
    ensures forall i :: 0 <= i < cols ==> localMin[i] == MinFrom(IntMax, Column(block, cols, i, n))
  {
    localMin := seq(cols, _ => IntMax);
    if |block| != 0 {
      Dense.MulDiv(n, cols);
      var j := 0;
      while j < |block| / cols
        invariant 0 <= j <= n && |localMin| == cols
        invariant forall i :: 0 <= i < cols ==> localMin[i] == MinFrom(IntMax, Column(block, cols, i, j))
      {
        Dense.MulMono(j + 1, n, cols);
        localMin := LowerByRow(block, cols, j, localMin);
        j := j + 1;
      }
    }
  }

  /** The inner loop of LocalMinByRows: row j lowers every column's minimum. */
  method LowerByRow(block: seq<int>, cols: nat, j: nat, localMin0: seq<int>) returns (localMin: seq<int>)
    requires (j + 1) * cols <= |block| && |localMin0| == cols
    requires forall i :: 0 <= i < cols ==> localMin0[i] == MinFrom(IntMax, Column(block, cols, i, j))
    ensures |localMin| == cols
    ensures forall i :: 0 <= i < cols ==> localMin[i] == MinFrom(IntMax, Column(block, cols, i, j + 1))
  {
    // row[i] is block[j * cols + i]
    var row := Dense.FlatRow(block, cols, j);
    localMin := localMin0;
    var i := 0;
    while i < cols
      invariant 0 <= i <= cols && |localMin| == cols
      invariant forall c :: 0 <= c < i ==> localMin[c] == Min(localMin0[c], row[c])
      invariant forall c :: i <= c < cols ==> localMin[c] == localMin0[c]
    {
      var value := row[i];
      if value < localMin[i] {
        localMin := localMin[i := value];
      }
      i := i + 1;
    }
    RowLowersMinima(block, cols, j, localMin0, localMin);
  }

  /** Lowering each column's minimum over rows 0 .. j - 1 by row j's entry gives the minimum over rows 0 .. j. */
  lemma RowLowersMinima(block: seq<int>, cols: nat, j: nat, localMin0: seq<int>, localMin: seq<int>)
    requires (j + 1) * cols <= |block| && |localMin0| == cols && |localMin| == cols
    requires forall i :: 0 <= i < cols ==> localMin0[i] == MinFrom(IntMax, Column(block, cols, i, j))
    requires forall i :: 0 <= i < cols ==> localMin[i] == Min(localMin0[i], Dense.FlatRow(block, cols, j)[i])
    ensures forall i :: 0 <= i < cols ==> localMin[i] == MinFrom(IntMax, Column(block, cols, i, j + 1))
  {
    forall i | 0 <= i < cols
      ensures localMin[i] == MinFrom(IntMax, Column(block, cols, i, j + 1))
    {
      ColumnMinStep(block, cols, i, j);
    }
  }

  /**
   * One rank's second loop nest: if its block is not empty, count row by
   * row how many of each column's entries exceed mins[column].
   */
  method LocalCountByRows(block: seq<int>, cols: nat, n: nat, mins: seq<int>) returns (localCount: seq<int>)
    requires |block| == n * cols && |mins| == cols
    ensures |localCount| == cols
    ensures forall i :: 0 <= i < cols ==> localCount[i] == CountAbove(Column(block, cols, i, n), mins[i])
  {
    localCount := seq(cols, _ => 0);
    if |block| != 0 {
      Dense.MulDiv(n, cols);
      var j := 0;
      while j < |block| / cols
        invariant 0 <= j <= n && |localCount| == cols
        invariant forall i :: 0 <= i < cols ==> localCount[i] == CountAbove(Column(block, cols, i, j), mins[i])
      {
        Dense.MulMono(j + 1, n, cols);
        localCount := CountRow(block, cols, j, mins, localCount);
        j := j + 1;
      }
    }
  }

  /** The inner loop of LocalCountByRows: row j's entries above the minima are counted. */
  method CountRow(block: seq<int>, cols: nat, j: nat, mins: seq<int>, localCount0: seq<int>) returns (localCount: seq<int>)
    requires (j + 1) * cols <= |block| && |localCount0| == cols && |mins| == cols
    requires forall i :: 0 <= i < cols ==> localCount0[i] == CountAbove(Column(block, cols, i, j), mins[i])
    ensures |localCount| == cols
    ensures forall i :: 0 <= i < cols ==> localCount[i] == CountAbove(Column(block, cols, i, j + 1), mins[i])
  {
    // row[i] is block[j * cols + i]
    var row := Dense.FlatRow(block, cols, j);
    localCount := localCount0;
    var i := 0;
    while i < cols
      invariant 0 <= i <= cols && |localCount| == cols
      invariant forall c :: 0 <= c < i ==> localCount[c] == localCount0[c] + (if row[c] > mins[c] then 1 else 0)
      invariant forall c :: i <= c < cols ==> localCount[c] == localCount0[c]
    {
      if row[i] > mins[i] {
        localCount := localCount[i := localCount[i] + 1];
      }
      i := i + 1;
    }
    RowCounted(block, cols, j, mins, localCount0, localCount);
  }

  /** Adding row j's entries above the minima to the counts over rows 0 .. j - 1 gives the counts over rows 0 .. j. */
  lemma RowCounted(block: seq<int>, cols: nat, j: nat, mins: seq<int>, localCount0: seq<int>, localCount: seq<int>)
    requires (j + 1) * cols <= |block| && |localCount0| == cols && |localCount| == cols && |mins| == cols
    requires forall i :: 0 <= i < cols ==> localCount0[i] == CountAbove(Column(block, cols, i, j), mins[i])
    requires forall i :: 0 <= i < cols ==>
      localCount[i] == localCount0[i] + (if Dense.FlatRow(block, cols, j)[i] > mins[i] then 1 else 0)
    ensures forall i :: 0 <= i < cols ==> localCount[i] == CountAbove(Column(block, cols, i, j + 1), mins[i])
  {
    forall i | 0 <= i < cols
      ensures localCount[i] == CountAbove(Column(block, cols, i, j + 1), mins[i])
    {
      ColumnCountStep(block, cols, i, j, mins[i]);
    }
  }


  /** A scan from a start at most INT_MAX is the start lowered by a scan from INT_MAX. */
  lemma {:induction false} MinFromStart(a: int, t: seq<int>)
    requires a <= IntMax
    ensures MinFrom(a, t) == Min(a, MinFrom(IntMax, t))
    decreases |t|
  {
    if |t| > 0 {
      MinFromStart(a, t[..|t| - 1]);
    }
  }

  /**
   * The minima of consecutive blocks, folded in rank order from INT_MAX,
   * give the minimum of the rows the blocks cover.
   */
  lemma {:induction false} FoldBlockMinima(col: seq<int>, size: nat, rows: nat, vals: seq<int>, k: nat)
    requires 1 <= size && |col| == rows && |vals| == size && k <= size
    requires forall r :: 0 <= r < size ==> vals[r] == MinFrom(IntMax, Segment(col, size, rows, r))
    ensures MinFrom(IntMax, vals[..k]) == MinFrom(IntMax, Covered(col, size, rows, k))
    decreases k
  {
    if k == 0 {
      assert Covered(col, size, rows, 0) == [];
    } else {
      FoldBlockMinima(col, size, rows, vals, k - 1);
      CoveredStep(col, size, rows, k - 1);
      var prior, segment := Covered(col, size, rows, k - 1), Segment(col, size, rows, k - 1);
      assert vals[..k][..k - 1] == vals[..k - 1];
      MinFromAppend(IntMax, prior, segment);
      MinFromBelow(IntMax, prior);
      MinFromStart(MinFrom(IntMax, prior), segment);
    }
  }

  /** The counts of consecutive blocks, summed in rank order, give the count over the rows the blocks cover. */
  lemma {:induction false} FoldBlockCounts(col: seq<int>, size: nat, rows: nat, m: int, vals: seq<int>, k: nat)
    requires 1 <= size && |col| == rows && |vals| == size && k <= size
    requires forall r :: 0 <= r < size ==> vals[r] == CountAbove(Segment(col, size, rows, r), m)
    ensures Sum(vals[..k]) == CountAbove(Covered(col, size, rows, k), m)
    decreases k
  {
    if k == 0 {
      assert Covered(col, size, rows, 0) == [];
    } else {
      FoldBlockCounts(col, size, rows, m, vals, k - 1);
      CoveredStep(col, size, rows, k - 1);
      assert vals[..k][..k - 1] == vals[..k - 1];
      CountAboveAppend(Covered(col, size, rows, k - 1), Segment(col, size, rows, k - 1), m);
    }
  }

  /** Every rank's local minima over its scattered block. */
  method AllLocalMins(data: seq<int>, sizes: seq<int>, size: nat, rows: nat, cols: nat) returns (mins: seq<seq<int>>)
    requires 1 <= size && rows * cols <= |data| && |sizes| == size
    requires forall k :: 0 <= k < size ==> sizes[k] == BlockSize(k, size, rows, cols)
    ensures |mins| == size && Uniform(mins, cols)
    ensures forall r, i {:trigger mins[r][i]} :: 0 <= r < size && 0 <= i < cols ==>
      mins[r][i] == MinFrom(IntMax, Column(Block(data, size, rows, cols, r), cols, i, BlockRows(r, size, rows)))
  {
    mins := [];
    var r := 0;
    while r < size
      invariant 0 <= r <= size && |mins| == r && Uniform(mins, cols)
      invariant forall k, i {:trigger mins[k][i]} :: 0 <= k < r && 0 <= i < cols ==>
        mins[k][i] == MinFrom(IntMax, Column(Block(data, size, rows, cols, k), cols, i, BlockRows(k, size, rows)))
    {
      ScattervBlocks(data, sizes, size, rows, cols, r);
      var localInput := Scatterv(data, sizes, r);
      var localMin := LocalMinByRows(localInput, cols, BlockRows(r, size, rows));
      mins := mins + [localMin];
      r := r + 1;
    }
  }

  /** Every rank's local counts over its scattered block, against the reduced minima. */
  method AllLocalCounts(data: seq<int>, sizes: seq<int>, size: nat, rows: nat, cols: nat, minima: seq<int>)
    returns (counts: seq<seq<int>>)
    requires 1 <= size && rows * cols <= |data| && |sizes| == size && |minima| == cols
    requires forall k :: 0 <= k < size ==> sizes[k] == BlockSize(k, size, rows, cols)
    ensures |counts| == size && Uniform(counts, cols)
    ensures forall r, i {:trigger counts[r][i]} :: 0 <= r < size && 0 <= i < cols ==>
      counts[r][i] == CountAbove(Column(Block(data, size, rows, cols, r), cols, i, BlockRows(r, size, rows)), minima[i])
  {
    counts := [];
    var r := 0;
    while r < size
      invariant 0 <= r <= size && |counts| == r && Uniform(counts, cols)
      invariant forall k, i {:trigger counts[k][i]} :: 0 <= k < r && 0 <= i < cols ==>
        counts[k][i] == CountAbove(Column(Block(data, size, rows, cols, k), cols, i, BlockRows(k, size, rows)), minima[i])
    {
      ScattervBlocks(data, sizes, size, rows, cols, r);
      var localInput := Scatterv(data, sizes, r);
      var localCount := LocalCountByRows(localInput, cols, BlockRows(r, size, rows), minima);
      counts := counts + [localCount];
      r := r + 1;
    }
  }

  /** The all-reduced minimum of column i is its parallel minimum over all rows. */
  lemma ReducedMinima(data: seq<int>, size: nat, rows: nat, cols: nat, mins: seq<seq<int>>, i: nat)
    requires 1 <= size && rows * cols <= |data| && i < cols && |mins| == size && Uniform(mins, cols)
    requires forall r :: 0 <= r < size ==>
      mins[r][i] == MinFrom(IntMax, Column(Block(data, size, rows, cols, r), cols, i, BlockRows(r, size, rows)))
    ensures ReduceMin(mins, cols)[i] == ParallelMinimum(data, cols, rows, i)
  {
    var col := Column(data, cols, i, rows);
    var vals := Across(mins, i);
    FirstRowLast(size, rows);
    forall r | 0 <= r < size
      ensures vals[r] == MinFrom(IntMax, Segment(col, size, rows, r))
    {
      ColumnOfBlock(data, size, rows, cols, r, i);
    }
    FoldBlockMinima(col, size, rows, vals, size);
    assert vals[..size] == vals;
    MinFromBelow(IntMax, Column(Block(data, size, rows, cols, 0), cols, i, BlockRows(0, size, rows)));
    StartBelowIntMax(vals);
  }

  /** The all-reduced count of column i is its count over all rows. */
  lemma ReducedCounts(data: seq<int>, size: nat, rows: nat, cols: nat, minima: seq<int>, counts: seq<seq<int>>, i: nat)
    requires 1 <= size && rows * cols <= |data| && i < cols && |minima| == cols && |counts| == size && Uniform(counts, cols)
    requires forall r :: 0 <= r < size ==>
      counts[r][i] == CountAbove(Column(Block(data, size, rows, cols, r), cols, i, BlockRows(r, size, rows)), minima[i])
    ensures ReduceSum(counts, cols)[i] == CountAbove(Column(data, cols, i, rows), minima[i])
  {
    var col := Column(data, cols, i, rows);
    var vals := Across(counts, i);
    FirstRowLast(size, rows);
    SegmentCounts(data, size, rows, cols, minima[i], vals, i);
    FoldBlockCounts(col, size, rows, minima[i], vals, size);
    assert vals[..size] == vals;
  }

  /** Rank r's count of its block's column i is the count of the matching segment of the whole column. */
  lemma SegmentCounts(data: seq<int>, size: nat, rows: nat, cols: nat, m: int, vals: seq<int>, i: nat)
    requires 1 <= size && rows * cols <= |data| && i < cols && |vals| == size
    requires forall r :: 0 <= r < size ==>
      vals[r] == CountAbove(Column(Block(data, size, rows, cols, r), cols, i, BlockRows(r, size, rows)), m)
    ensures forall r :: 0 <= r < size ==> vals[r] == CountAbove(Segment(Column(data, cols, i, rows), size, rows, r), m)
  {
    forall r | 0 <= r < size
      ensures vals[r] == CountAbove(Segment(Column(data, cols, i, rows), size, rows, r), m)
    {
      ColumnOfBlock(data, size, rows, cols, r, i);
    }
  }

  /**
   * The parallel task's state as the root holds it. Every rank ends with the
   * same count_greater, since it comes from an all-reduce.
   */
  class BoostParallelTask {
    var taskData: TaskData
    var inputData: seq<int>
    var localInputData: seq<int>
    var countGreater: seq<int>
    var columnCount: nat
    var rowCount: nat

    constructor(td: TaskData)
      ensures taskData == td && inputData == [] && localInputData == [] && countGreater == []
      ensures columnCount == 0 && rowCount == 0
    {
      taskData := td;
      inputData, localInputData, countGreater := [], [], [];
      columnCount, rowCount := 0, 0;
    }

    /**
     * `pre_processing`: the root reads the shape and copies the input; any
     * other rank sizes its input buffer, with the shape it holds, as zeros.
     */
    method PreProcessing(rank: nat) returns (ok: bool)
      requires rank == 0 ==> |taskData.inputsCount| >= 3 && InputFilled(taskData, 0)
      modifies this
      ensures ok && taskData == old(taskData) && localInputData == old(localInputData) && countGreater == old(countGreater)
      ensures rank == 0 ==>
        && columnCount == taskData.inputsCount[1] && rowCount == taskData.inputsCount[2]
        && inputData == Input(taskData, 0, taskData.inputsCount[0])
      ensures rank != 0 ==>
        columnCount == old(columnCount) && rowCount == old(rowCount) && inputData == Zeros(columnCount * rowCount)
    {
      if rank == 0 {
        var td := taskData;
        columnCount, rowCount := td.inputsCount[1], td.inputsCount[2];
        inputData := Input(td, 0, td.inputsCount[0]);
      } else {
        inputData := Zeros(columnCount * rowCount);
      }
      ok := true;
    }

    /**
     * `run` over a world of `size` ranks: size the blocks, scatter them,
     * compute every rank's local minima, all-reduce them with minimum, count
     * above the minima, and all-reduce the counts with plus. The root keeps
     * block 0.
     */
    method Run(size: nat) returns (ok: bool)
      requires 1 <= size && rowCount * columnCount <= |inputData|
      modifies this
      ensures ok && taskData == old(taskData) && inputData == old(inputData)
      ensures columnCount == old(columnCount) && rowCount == old(rowCount)
      ensures localInputData == Block(inputData, size, rowCount, columnCount, 0)
      ensures |countGreater| == columnCount
      ensures forall i :: 0 <= i < columnCount ==>
        countGreater[i] == CountAbove(Column(inputData, columnCount, i, rowCount), ParallelMinimum(inputData, columnCount, rowCount, i))
    {
      var data, cols, rows := inputData, columnCount, rowCount;
      var sizes := ScatterSizes(size, rows, cols);
      ScattervBlocks(data, sizes, size, rows, cols, 0);
      localInputData := Scatterv(data, sizes, 0);
      var localMins := AllLocalMins(data, sizes, size, rows, cols);
      var minByCols := ReduceMin(localMins, cols);
      forall i | 0 <= i < cols
        ensures minByCols[i] == ParallelMinimum(data, cols, rows, i)
      {
        ReducedMinima(data, size, rows, cols, localMins, i);
      }
      var localCounts := AllLocalCounts(data, sizes, size, rows, cols, minByCols);
      var total := ReduceSum(localCounts, cols);
      forall i | 0 <= i < cols
        ensures total[i] == CountAbove(Column(data, cols, i, rows), minByCols[i])
      {
        ReducedCounts(data, size, rows, cols, minByCols, localCounts, i);
      }
      countGreater := total;
      ok := true;
    }

    /** `post_processing`: the root writes each column's count into the output buffer; other ranks do nothing. */
    method PostProcessing(rank: nat) returns (ok: bool)
      requires rank == 0 ==> |taskData.outputs| >= 1 && taskData.outputs[0].Data?
      requires rank == 0 ==> columnCount <= |taskData.outputs[0].items| && columnCount <= |countGreater|
      modifies this
      ensures ok && countGreater == old(countGreater) && columnCount == old(columnCount)
      ensures inputData == old(inputData) && localInputData == old(localInputData) && rowCount == old(rowCount)
      ensures rank != 0 ==> taskData == old(taskData)
      ensures rank == 0 ==>
        taskData == old(taskData).(outputs := [Data(countGreater[..columnCount] + old(taskData).outputs[0].items[columnCount..])] + old(taskData).outputs[1..])
    {
      if rank == 0 {
        var td := taskData;
        var out := td.outputs[0].items;
        taskData := td.(outputs := [Data(countGreater[..columnCount] + out[columnCount..])] + td.outputs[1..]);
      }
      ok := true;
    }
  }
}
