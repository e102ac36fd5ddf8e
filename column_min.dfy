/**
 * Column minima of a row-major integer matrix and, per column, how many
 * entries lie strictly above that minimum: the computation of the
 * plekhanov_d_allreduce_mine and plekhanov_d_allreduce_boost tasks. The two
 * tasks' sequential classes are identical but for pre_processing, and are
 * modelled here by one class; their parallel variants live in AllreduceMine
 * and AllreduceBoost.
 *
 * Entries are C `int`s. The sequential task starts each column's scan from
 * its first entry, the parallel ones from INT_MAX; over 32-bit entries the
 * two agree (MatchesSequential).
 */
module ColumnMin {
  import opened Task
  import Dense

  const IntMax := 0x7fff_ffff
  const IntMin := -0x8000_0000

  /** Every entry fits a 32-bit int. */
  predicate Int32s(s: seq<int>)
  {
    forall k :: 0 <= k < |s| ==> IntMin <= s[k] <= IntMax
  }

  function Min(x: int, y: int): int
  {
    if x <= y then x else y
  }

  /** m is the minimum of s: one of its entries, and at most every entry. */
  ghost predicate IsMin(m: int, s: seq<int>)
  {
    (exists k :: 0 <= k < |s| && s[k] == m) && forall k :: 0 <= k < |s| ==> m <= s[k]
  }

  /** The running minimum of a scan that starts at init and visits s left to right. */
  function MinFrom(init: int, s: seq<int>): int
    decreases |s|
  {
    if |s| == 0 then init else Min(MinFrom(init, s[..|s| - 1]), s[|s| - 1])
  }

  /** How many entries of s are strictly greater than m. */
  function CountAbove(s: seq<int>, m: int): (n: nat)
    decreases |s|
  {
    if |s| == 0 then 0 else CountAbove(s[..|s| - 1], m) + (if s[|s| - 1] > m then 1 else 0)
  }

  /** The scan's result is at most its start and at most every entry visited. */
  lemma {:induction false} MinFromBelow(init: int, s: seq<int>)
    ensures MinFrom(init, s) <= init
    ensures forall k :: 0 <= k < |s| ==> MinFrom(init, s) <= s[k]
    decreases |s|
  {
    if |s| > 0 {
      var p := s[..|s| - 1];
      MinFromBelow(init, p);
      assert forall k :: 0 <= k < |p| ==> p[k] == s[k];
    }
  }

  /** The scan's result is its start or one of the entries visited. */
  lemma {:induction false} MinFromAttained(init: int, s: seq<int>) returns (k: int)
    ensures k == -1 ==> MinFrom(init, s) == init
    ensures k != -1 ==> 0 <= k < |s| && MinFrom(init, s) == s[k]
    decreases |s|
  {
    if |s| == 0 {
      k := -1;
    } else {
      var p := s[..|s| - 1];
      k := MinFromAttained(init, p);
      if s[|s| - 1] < MinFrom(init, p) {
        k := |s| - 1;
      } else if k != -1 {
        assert p[k] == s[k];
      }
    }
  }

  /** A minimum is unique. */
  lemma IsMinUnique(m1: int, m2: int, s: seq<int>)
    requires IsMin(m1, s) && IsMin(m2, s)
    ensures m1 == m2
  {
    var k1 :| 0 <= k1 < |s| && s[k1] == m1;
    var k2 :| 0 <= k2 < |s| && s[k2] == m2;
    assert m1 <= s[k2] && m2 <= s[k1];
  }

  /** The sequential scan, which starts from the first entry and visits the rest, finds the minimum. */
  lemma FirstStartIsMin(s: seq<int>)
    requires |s| >= 1
    ensures IsMin(MinFrom(s[0], s[1..]), s)
  {
    var m := MinFrom(s[0], s[1..]);
    MinFromBelow(s[0], s[1..]);
    var k := MinFromAttained(s[0], s[1..]);
    if k == -1 {
      assert s[0] == m;
    } else {
      assert s[k + 1] == m;
    }
    forall j | 1 <= j < |s|
      ensures m <= s[j]
    {
      assert s[1..][j - 1] == s[j];
    }
  }

  /** The parallel scan, which starts from INT_MAX, finds the minimum of nonempty 32-bit data. */
  lemma IntMaxStartIsMin(s: seq<int>)
    requires |s| >= 1 && Int32s(s)
    ensures IsMin(MinFrom(IntMax, s), s)
  {
    MinFromBelow(IntMax, s);
    var k := MinFromAttained(IntMax, s);
    if k == -1 {
      assert MinFrom(IntMax, s) <= s[0] <= IntMax;
      assert s[0] == MinFrom(IntMax, s);
    }
  }

  /** Scanning s then t is scanning s + t. */
  lemma {:induction false} MinFromAppend(init: int, s: seq<int>, t: seq<int>)
    ensures MinFrom(init, s + t) == MinFrom(MinFrom(init, s), t)
    decreases |t|
  {
    if |t| == 0 {
      assert s + t == s;
    } else {
      assert (s + t)[..|s + t| - 1] == s + t[..|t| - 1];
      MinFromAppend(init, s, t[..|t| - 1]);
    }
  }

  /** Counting over s + t is counting over s plus counting over t. */
  lemma {:induction false} CountAboveAppend(s: seq<int>, t: seq<int>, m: int)
    ensures CountAbove(s + t, m) == CountAbove(s, m) + CountAbove(t, m)
    decreases |t|
  {
    if |t| == 0 {
      assert s + t == s;
    } else {
      assert (s + t)[..|s + t| - 1] == s + t[..|t| - 1];
      CountAboveAppend(s, t[..|t| - 1], m);
    }
  }

  /** An entry at most m is never counted, so at most |s| - 1 entries exceed m. */
  lemma {:induction false} CountAboveMissesOne(s: seq<int>, m: int, k: int)
    requires 0 <= k < |s| && s[k] <= m
    ensures CountAbove(s, m) <= |s| - 1
    decreases |s|
  {
    var p := s[..|s| - 1];
    if k < |s| - 1 {
      assert p[k] == s[k];
      CountAboveMissesOne(p, m, k);
    } else {
      CountAboveAtMost(p, m);
    }
  }

  /** At most |s| entries of s exceed anything. */
  lemma {:induction false} CountAboveAtMost(s: seq<int>, m: int)
    ensures CountAbove(s, m) <= |s|
    decreases |s|
  {
    if |s| > 0 {
      CountAboveAtMost(s[..|s| - 1], m);
    }
  }

  /** The minimum itself is never counted: at most |s| - 1 entries lie above the minimum of s. */
  lemma CountAboveMinBound(s: seq<int>, m: int)
    requires IsMin(m, s)
    ensures CountAbove(s, m) <= |s| - 1
  {
    var k :| 0 <= k < |s| && s[k] == m;
    CountAboveMissesOne(s, m, k);
  }

  /** Scanning from INT_MAX is scanning from the first entry, when that entry fits an int. */
  lemma StartBelowIntMax(s: seq<int>)
    requires |s| >= 1 && s[0] <= IntMax
    ensures MinFrom(IntMax, s) == MinFrom(s[0], s[1..])
  {
    assert s == [s[0]] + s[1..];
    MinFromAppend(IntMax, [s[0]], s[1..]);
    assert [s[0]][..0] == [];
  }

  /** Every rank's buffer holds n entries. */
  predicate Uniform(vs: seq<seq<int>>, n: nat)
  {
    forall r :: 0 <= r < |vs| ==> |vs[r]| == n
  }

  /** Entry i of every rank's buffer, in rank order. */
  function Across(vs: seq<seq<int>>, i: nat): (s: seq<int>)
    requires forall r :: 0 <= r < |vs| ==> i < |vs[r]|
    ensures |s| == |vs| && forall r :: 0 <= r < |vs| ==> s[r] == vs[r][i]
  {
    seq(|vs|, r requires 0 <= r < |vs| => vs[r][i])
  }

  function Sum(s: seq<int>): int
    decreases |s|
  {
    if |s| == 0 then 0 else Sum(s[..|s| - 1]) + s[|s| - 1]
  }

  /** A reduction with MPI's minimum: entry by entry, the least of the ranks' values. */
  function ReduceMin(vs: seq<seq<int>>, n: nat): (m: seq<int>)
    requires |vs| >= 1 && Uniform(vs, n)
    ensures |m| == n
  {
    seq(n, i requires 0 <= i < n => var s := Across(vs, i); MinFrom(s[0], s[1..]))
  }

  /** A reduction with std::plus: entry by entry, the sum of the ranks' values. */
  function ReduceSum(vs: seq<seq<int>>, n: nat): (m: seq<int>)
    requires Uniform(vs, n)
    ensures |m| == n
  {
    seq(n, i requires 0 <= i < n => Sum(Across(vs, i)))
  }

  /** Each entry of ReduceMin is the minimum over the ranks. */
  lemma ReduceMinIsMin(vs: seq<seq<int>>, n: nat, i: nat)
    requires |vs| >= 1 && Uniform(vs, n) && i < n
    ensures IsMin(ReduceMin(vs, n)[i], Across(vs, i))
  {
    FirstStartIsMin(Across(vs, i));
  }

  /** When only entry k of s can be nonzero, the sum is s[k]. */
  lemma {:induction false} SumSingle(s: seq<int>, k: int)
    requires 0 <= k < |s| && forall r :: 0 <= r < |s| && r != k ==> s[r] == 0
    ensures Sum(s) == s[k]
    decreases |s|
  {
    var p := s[..|s| - 1];
    if k < |s| - 1 {
      SumSingle(p, k);
    } else {
      SumZero(p);
    }
  }

  lemma {:induction false} SumZero(s: seq<int>)
    requires forall r :: 0 <= r < |s| ==> s[r] == 0
    ensures Sum(s) == 0
    decreases |s|
  {
    if |s| > 0 {
      SumZero(s[..|s| - 1]);
    }
  }

  /** When every entry of s but s[k] is INT_MAX and s[k] is not above it, the minimum of s is s[k]. */
  lemma MinSingle(m: int, s: seq<int>, k: int)
    requires IsMin(m, s) && 0 <= k < |s| && s[k] <= IntMax
    requires forall r :: 0 <= r < |s| && r != k ==> s[r] == IntMax
    ensures m == s[k]
  {
    var j :| 0 <= j < |s| && s[j] == m;
    assert m <= s[k];
  }

  /** Column c (its first `rows` entries) of a row-major matrix with `cols` columns. */
  function Column(data: seq<int>, cols: nat, c: nat, rows: nat): (col: seq<int>)
    requires c < cols && rows * cols <= |data|
    ensures |col| == rows
    ensures forall k :: 0 <= k < rows ==> k * cols + c < |data| && col[k] == data[k * cols + c]
  {
    Dense.FlatColumn(data, cols, c, rows)
  }

  /** The rows the sequential scan reads: row 0 always, however small rowCount is. */
  function Scanned(rows: nat): (n: nat)
    ensures 1 <= n && rows <= n && (rows >= 1 ==> n == rows)
  {
    if rows == 0 then 1 else rows
  }

  /** Column c's minimum as the sequential task computes it: its first entry, lowered by rows 1 .. rows - 1. */
  function ColumnMinimum(data: seq<int>, cols: nat, c: nat, rows: nat): int
    requires c < cols && Scanned(rows) * cols <= |data|
  {
    var col := Column(data, cols, c, Scanned(rows));
    MinFrom(col[0], col[1..])
  }

  /** With at least one row, ColumnMinimum is the column's minimum. */
  lemma ColumnMinimumIsMin(data: seq<int>, cols: nat, c: nat, rows: nat)
    requires c < cols && 1 <= rows && rows * cols <= |data|
    ensures IsMin(ColumnMinimum(data, cols, c, rows), Column(data, cols, c, rows))
  {
    FirstStartIsMin(Column(data, cols, c, rows));
  }

  /** Column c's minimum as the ranks compute it: a scan from INT_MAX over all rows. */
  function ParallelMinimum(data: seq<int>, cols: nat, rows: nat, c: nat): int
    requires c < cols && rows * cols <= |data|
  {
    MinFrom(IntMax, Column(data, cols, c, rows))
  }

  /**
   * The minimum the parallel tasks compute, for any number of ranks, is the
   * sequential task's on 32-bit input with at least one row, and the count
   * of entries above it is at most rows - 1.
   */
  lemma MatchesSequential(data: seq<int>, cols: nat, rows: nat, c: nat)
    requires c < cols && 1 <= rows && rows * cols <= |data| && Int32s(data)
    ensures ParallelMinimum(data, cols, rows, c) == ColumnMinimum(data, cols, c, rows)
    ensures CountAbove(Column(data, cols, c, rows), ParallelMinimum(data, cols, rows, c)) <= rows - 1
  {
    var col := Column(data, cols, c, rows);
    assert Int32s(col) by {
      forall k | 0 <= k < |col|
        ensures IntMin <= col[k] <= IntMax
      {
        assert col[k] == data[k * cols + c];
      }
    }
    IntMaxStartIsMin(col);
    ColumnMinimumIsMin(data, cols, c, rows);
    IsMinUnique(MinFrom(IntMax, col), ColumnMinimum(data, cols, c, rows), col);
    CountAboveMinBound(col, ColumnMinimum(data, cols, c, rows));
  }

  /**
   * `validation`, the same in both tasks' sequential classes and on the
   * parallel classes' root: a nonzero column and row count, an input buffer,
   * a nonzero element count, and an output of one count per column.
   */
  predicate Validation(td: TaskData)
    requires |td.inputsCount| >= 3 && |td.outputsCount| >= 1
  {
    && td.inputsCount[1] != 0 && td.inputsCount[2] != 0 && |td.inputs| != 0
    && td.inputsCount[0] > 0 && td.inputsCount[1] == td.outputsCount[0]
  }

  function Zeros(n: nat): (z: seq<int>)
    ensures |z| == n && forall k :: 0 <= k < n ==> z[k] == 0
  {
    seq(n, _ => 0)
  }

  /** A task over an empty matrix buffer declared cols x rows, with one output slot per column. */
  function EmptyMatrix(cols: nat, rows: nat): TaskData
  {
    TaskData([Data([])], [0, cols, rows], [Data(Zeros(cols))], [cols])
  }

  /** Validation rejects an empty 0 x 0 matrix and an empty buffer declared 5 x 5. */
  lemma ValidationRejectsEmpty(cols: nat, rows: nat)
    ensures !Validation(EmptyMatrix(cols, rows))
  {
  }

  /** Validation accepts exactly the layouts with nonzero dimensions, nonzero element count and a matching output count. */
  lemma ValidationLayout(inputs: seq<Buffer>, n: nat, cols: nat, rows: nat, outCount: nat)
    ensures Validation(TaskData(inputs, [n, cols, rows], [], [outCount]))
      <==> (|inputs| != 0 && n > 0 && cols > 0 && rows > 0 && outCount == cols)
  {
  }

  /** std::vector::resize(n, 0): keep the first n entries, pad with zeros. */
  function Resize(s: seq<int>, n: nat): (r: seq<int>)
    ensures |r| == n
    ensures forall k :: 0 <= k < n ==> r[k] == (if k < |s| then s[k] else 0)
  {
    if n <= |s| then s[..n] else s + Zeros(n - |s|)
  }

  /** The scan of one column from its first entry over rows 1 .. rows - 1: the inner loop of `run`'s first nest. */
  method ScanColumnMin(data: seq<int>, cols: nat, rows: nat, column: nat) returns (columnMin: int)
    requires column < cols && Scanned(rows) * cols <= |data|
    ensures columnMin == ColumnMinimum(data, cols, column, rows)
  {
    ghost var col := Column(data, cols, column, Scanned(rows));
    columnMin := data[column];
    assert data[0 * cols + column] == col[0];
    var row := 1;
    while row < rows
      invariant 1 <= row <= Scanned(rows)
      invariant columnMin == MinFrom(col[0], col[1..row])
    {
      var value := data[row * cols + column];
      assert value == col[row];
      assert col[1..row + 1][..row - 1] == col[1..row];
      if value < columnMin {
        columnMin := value;
      }
      row := row + 1;
    }
    assert col[1..row] == col[1..];
  }

  /** The count of one column's entries above m over rows 0 .. rows - 1: the inner loop of `run`'s second nest. */
  method ScanColumnCount(data: seq<int>, cols: nat, rows: nat, column: nat, m: int) returns (count: nat)
    requires column < cols && rows * cols <= |data|
    ensures count == CountAbove(Column(data, cols, column, rows), m)
  {
    ghost var col := Column(data, cols, column, rows);
    count := 0;
    var row := 0;
    while row < rows
      invariant 0 <= row <= rows
      invariant count == CountAbove(col[..row], m)
    {
      assert col[..row + 1][..row] == col[..row];
      if data[row * cols + column] > m {
        count := count + 1;
      }
      row := row + 1;
    }
    assert col[..row] == col;
  }

  /** `run`'s first loop nest: the minimum of every column c < cols is written at result[c]. */
  method ColumnMinima(data: seq<int>, cols: nat, rows: nat, result0: seq<int>) returns (result: seq<int>)
    requires Scanned(rows) * cols <= |data| && cols <= |result0|
    ensures |result| == |result0| && result[cols..] == result0[cols..]
    ensures forall c :: 0 <= c < cols ==> result[c] == ColumnMinimum(data, cols, c, rows)
  {
    result := result0;
    var column := 0;
    while column < cols
      invariant 0 <= column <= cols && |result| == |result0|
      invariant forall c :: 0 <= c < column ==> result[c] == ColumnMinimum(data, cols, c, rows)
      invariant result[column..] == result0[column..]
    {
      var columnMin := ScanColumnMin(data, cols, rows, column);
      assert result[column + 1..] == result0[column + 1..] by {
        assert result[column + 1..] == result[column..][1..];
      }
      result := result[column := columnMin];
      column := column + 1;
    }
  }

  /** `run`'s second loop nest: counts[c] grows by the number of column c's entries above mins[c]. */
  method AddColumnCounts(data: seq<int>, cols: nat, rows: nat, mins: seq<int>, counts0: seq<int>) returns (counts: seq<int>)
    requires rows * cols <= |data| && cols <= |mins| && cols <= |counts0|
    ensures |counts| == |counts0| && counts[cols..] == counts0[cols..]
    ensures forall c :: 0 <= c < cols ==> counts[c] == counts0[c] + CountAbove(Column(data, cols, c, rows), mins[c])
  {
    counts := counts0;
    var column := 0;
    while column < cols
      invariant 0 <= column <= cols && |counts| == |counts0|
      invariant forall c :: 0 <= c < column ==> counts[c] == counts0[c] + CountAbove(Column(data, cols, c, rows), mins[c])
      invariant counts[column..] == counts0[column..]
    {
      var count := ScanColumnCount(data, cols, rows, column, mins[column]);
      assert counts[column + 1..] == counts0[column + 1..] by {
        assert counts[column + 1..] == counts[column..][1..];
      }
      counts := counts[column := counts[column] + count];
      column := column + 1;
    }
  }

  /**
   * The sequential task's state: the copied input, the per-column minima
   * and counts, and the matrix shape.
   */
  class ColumnMinTask {
    var taskData: TaskData
    var inputData: seq<int>
    var resultData: seq<int>
    var countAboveMin: seq<int>
    var columnCount: nat
    var rowCount: nat

    constructor(td: TaskData)
      ensures taskData == td && inputData == [] && resultData == [] && countAboveMin == []
    {
      taskData := td;
      inputData, resultData, countAboveMin := [], [], [];
      columnCount, rowCount := 0, 0;
    }

    /**
     * `pre_processing` of plekhanov_d_allreduce_mine: read the shape,
     * copy inputs_count[0] elements of the input, and start every minimum
     * and count at zero.
     */
    method PreProcessing() returns (ok: bool)
      requires |taskData.inputsCount| >= 3 && InputFilled(taskData, 0)
      modifies this
      ensures ok && taskData == old(taskData)
      ensures columnCount == taskData.inputsCount[1] && rowCount == taskData.inputsCount[2]
      ensures inputData == Input(taskData, 0, taskData.inputsCount[0])
      ensures resultData == Zeros(columnCount) && countAboveMin == Zeros(columnCount)
    {
      var td := taskData;
      columnCount, rowCount := td.inputsCount[1], td.inputsCount[2];
      inputData := Input(td, 0, td.inputsCount[0]);
      resultData, countAboveMin := Zeros(columnCount), Zeros(columnCount);
      ok := true;
    }

    /**
     * `pre_processing` of plekhanov_d_allreduce_boost: the same, except
     * that the minima and counts are resized to one per column, keeping
     * what they already hold.
     */
    method PreProcessingResize() returns (ok: bool)
      requires |taskData.inputsCount| >= 3 && InputFilled(taskData, 0)
      modifies this
      ensures ok && taskData == old(taskData)
      ensures columnCount == taskData.inputsCount[1] && rowCount == taskData.inputsCount[2]
      ensures inputData == Input(taskData, 0, taskData.inputsCount[0])
      ensures resultData == Resize(old(resultData), columnCount) && countAboveMin == Resize(old(countAboveMin), columnCount)
    {
      var td := taskData;
      columnCount, rowCount := td.inputsCount[1], td.inputsCount[2];
      inputData := Input(td, 0, td.inputsCount[0]);
      resultData, countAboveMin := Resize(resultData, columnCount), Resize(countAboveMin, columnCount);
      ok := true;
    }

    /**
     * `run`: each column's minimum goes into resultData, then each column's
     * count of entries above that minimum is added to countAboveMin.
     */
    method Run() returns (ok: bool)
      requires Scanned(rowCount) * columnCount <= |inputData|
      requires columnCount <= |resultData| && columnCount <= |countAboveMin|
      modifies this
      ensures ok && taskData == old(taskData) && inputData == old(inputData)
      ensures columnCount == old(columnCount) && rowCount == old(rowCount)
      ensures |resultData| == |old(resultData)| && |countAboveMin| == |old(countAboveMin)|
      ensures forall c :: 0 <= c < columnCount ==> resultData[c] == ColumnMinimum(inputData, columnCount, c, rowCount)
      ensures forall c :: 0 <= c < columnCount ==>
        countAboveMin[c] == old(countAboveMin)[c] + CountAbove(Column(inputData, columnCount, c, rowCount), resultData[c])
      ensures resultData[columnCount..] == old(resultData)[columnCount..]
      ensures countAboveMin[columnCount..] == old(countAboveMin)[columnCount..]
    {
      var data, cols, rows := inputData, columnCount, rowCount;
      var result := ColumnMinima(data, cols, rows, resultData);
      var counts := AddColumnCounts(data, cols, rows, result, countAboveMin);
      resultData, countAboveMin := result, counts;
      ok := true;
    }

    /** `post_processing`: write each column's count into the output buffer. */
    method PostProcessing() returns (ok: bool)
      requires |taskData.outputs| >= 1 && taskData.outputs[0].Data?
      requires columnCount <= |taskData.outputs[0].items| && columnCount <= |countAboveMin|
      modifies this
      ensures ok && countAboveMin == old(countAboveMin) && columnCount == old(columnCount)
      ensures inputData == old(inputData) && resultData == old(resultData) && rowCount == old(rowCount)
      ensures taskData == old(taskData).(outputs := [Data(countAboveMin[..columnCount] + old(taskData).outputs[0].items[columnCount..])] + old(taskData).outputs[1..])
    {
      var td := taskData;
      var out := td.outputs[0].items;
      taskData := td.(outputs := [Data(countAboveMin[..columnCount] + out[columnCount..])] + td.outputs[1..]);
      ok := true;
    }
  }

  /**
   * What a fresh task publishes for column c after pre_processing and run:
   * its minimum, and a count of entries above it that is at most rows - 1.
   */
  lemma SequentialOutcome(data: seq<int>, cols: nat, rows: nat, c: nat, count: int)
    requires c < cols && 1 <= rows && rows * cols <= |data|
    requires count == 0 + CountAbove(Column(data, cols, c, rows), ColumnMinimum(data, cols, c, rows))
    ensures IsMin(ColumnMinimum(data, cols, c, rows), Column(data, cols, c, rows))
    ensures 0 <= count <= rows - 1
  {
    ColumnMinimumIsMin(data, cols, c, rows);
    CountAboveMinBound(Column(data, cols, c, rows), ColumnMinimum(data, cols, c, rows));
  }
}
