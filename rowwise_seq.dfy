/**
 * The sequential task of golovkin_rowwise_matrix_partitioning: A and B are
 * vectors of rows handed over through the task data, `pre_processing`
 * resizes the output matrix to A's row count (new rows are zeros), and
 * `run` adds A·B onto it with the textbook triple loop.
 */
module RowwiseSeq {
  import Dense

  /** A task-data slot holding a pointer to a vector of rows, or null. */
  datatype MatrixBuffer = Null | Matrix(rows: seq<seq<int>>)

  datatype MatrixTaskData = MatrixTaskData(inputs: seq<MatrixBuffer>, outputs: seq<MatrixBuffer>)

  /**
   * `validation`: two inputs and an output, A and B present and not empty,
   * and A's first row as long as B is tall.
   */
  predicate Validation(td: MatrixTaskData)
  {
    && 2 <= |td.inputs| && 1 <= |td.outputs|
    && td.inputs[0].Matrix? && td.inputs[1].Matrix?
    && |td.inputs[0].rows| != 0 && |td.inputs[1].rows| != 0
    && |td.inputs[0].rows[0]| == |td.inputs[1].rows|
  }

  /** Validation accepts exactly the inputs whose inner dimensions agree (read off the first row of A). */
  lemma ValidationInnerDimension(a: seq<seq<int>>, b: seq<seq<int>>, out: MatrixBuffer)
    requires |a| != 0 && |b| != 0
    ensures Validation(MatrixTaskData([Matrix(a), Matrix(b)], [out])) <==> |a[0]| == |b|
    ensures !Validation(MatrixTaskData([Matrix([]), Matrix(b)], [out]))
    ensures !Validation(MatrixTaskData([Matrix(a), Null], [out]))
    ensures !Validation(MatrixTaskData([Matrix(a), Matrix(b)], []))
  {
  }

  /** The three rejections of the unit tests: empty A, a 2×2 A with a 1×2 B, and a null B. */
  lemma ValidationExamples(out: MatrixBuffer)
    ensures !Validation(MatrixTaskData([Matrix([]), Matrix([])], [out]))
    ensures !Validation(MatrixTaskData([Matrix([]), Matrix([[1, 2], [3, 4]])], [out]))
    ensures !Validation(MatrixTaskData([Matrix([[1, 2], [3, 4]]), Matrix([[5, 6]])], [out]))
    ensures !Validation(MatrixTaskData([Matrix([]), Null], [out]))
  {
    assert |[[5, 6]]| == 1;
  }

  /** `std::vector::resize(n, fill)` on a vector of rows: keep the first n rows, pad with `fill`. */
  function ResizeRows(r: seq<seq<int>>, n: nat, fill: seq<int>): (s: seq<seq<int>>)
    ensures |s| == n
    ensures forall i :: 0 <= i < n && i < |r| ==> s[i] == r[i]
    ensures forall i :: |r| <= i < n ==> s[i] == fill
  {
    if n <= |r| then r[..n] else r + seq(n - |r|, _ => fill)
  }

  /** Sum of a[i][k] * b[k][j] over k < n: what the innermost loop has added after n steps. */
  function Partial(a: seq<seq<int>>, b: seq<seq<int>>, i: nat, j: nat, n: nat): int
    requires i < |a| && n <= |a[i]| && n <= |b| && Dense.HasColumns(b[..n], j + 1)
  {
    Dense.Dot(a[i][..n], Dense.Column(b[..n], j, n))
  }

  /** One more step of the innermost loop adds a[i][n] * b[n][j]. */
  lemma PartialStep(a: seq<seq<int>>, b: seq<seq<int>>, i: nat, j: nat, n: nat)
    requires i < |a| && n < |a[i]| && n < |b| && Dense.HasColumns(b[..n + 1], j + 1)
    ensures Dense.HasColumns(b[..n], j + 1)
    ensures Partial(a, b, i, j, n + 1) == Partial(a, b, i, j, n) + a[i][n] * b[n][j]
  {
    assert b[..n + 1][..n] == b[..n];
    var u, v := a[i][..n + 1], Dense.Column(b[..n + 1], j, n + 1);
    assert u[..n] == a[i][..n];
    assert v[..n] == Dense.Column(b[..n], j, n);
  }

  /** The operand shapes `multiplier` indexes: every row of A has |A[0]| entries, B has that many rows of |B[0]| entries. */
  predicate Shaped(a: seq<seq<int>>, b: seq<seq<int>>)
  {
    && 1 <= |a| && 1 <= |b| && |a[0]| <= |b|
    && Dense.HasColumns(a, |a[0]|) && Dense.HasColumns(b[..|a[0]|], |b[0]|)
  }

  /** ... and the result has |A| rows of |B[0]| entries. */
  predicate Conformable(a: seq<seq<int>>, b: seq<seq<int>>, r: seq<seq<int>>)
  {
    Shaped(a, b) && |a| <= |r| && Dense.HasColumns(r[..|a|], |b[0]|)
  }

  /** Entry (i, j) of A·B. */
  function ProductEntry(a: seq<seq<int>>, b: seq<seq<int>>, i: nat, j: nat): int
    requires Shaped(a, b) && i < |a| && j < |b[0]|
  {
    Partial(a, b, i, j, |a[0]|)
  }

  /** r is r0 with A·B added onto rows 0 .. m - 1 (columns 0 .. |B[0]| - 1); everything else as in r0. */
  predicate AddedRows(a: seq<seq<int>>, b: seq<seq<int>>, r0: seq<seq<int>>, r: seq<seq<int>>, m: nat)
    requires Shaped(a, b) && m <= |a|
  {
    && |r| == |r0|
    && (forall i :: 0 <= i < |r| ==> |r[i]| == |r0[i]|)
    && forall i, j {:trigger r[i][j]} :: 0 <= i < |r| && 0 <= j < |r[i]| ==>
      r[i][j] == r0[i][j] + (if i < m && j < |b[0]| then ProductEntry(a, b, i, j) else 0)
  }

  /**
   * The innermost loop for entry (i, j) of the row being built:
   * row[j] += A[i][k] * B[k][j] for k = 0 .. |A[0]| - 1.
   */
  method AccumulateEntry(a: seq<seq<int>>, b: seq<seq<int>>, i: nat, j: nat, row0: seq<int>) returns (row: seq<int>)
    requires Shaped(a, b) && i < |a| && j < |b[0]| && j < |row0|
    ensures |row| == |row0| && row[j] == row0[j] + ProductEntry(a, b, i, j)
    ensures forall l :: 0 <= l < |row| && l != j ==> row[l] == row0[l]
  {
    var colsA := |a[0]|;
    row := row0;
    var k := 0;
    while k < colsA
      invariant 0 <= k <= colsA && |row| == |row0|
      invariant row[j] == row0[j] + Partial(a, b, i, j, k)
      invariant forall l :: 0 <= l < |row| && l != j ==> row[l] == row0[l]
    {
      assert b[..colsA][..k + 1] == b[..k + 1];
      PartialStep(a, b, i, j, k);
      row := row[j := row[j] + a[i][k] * b[k][j]];
      k := k + 1;
    }
  }

  /** The middle loop: row i of the result gains row i of A·B in its first |B[0]| entries. */
  method AccumulateRow(a: seq<seq<int>>, b: seq<seq<int>>, i: nat, row0: seq<int>) returns (row: seq<int>)
    requires Shaped(a, b) && i < |a| && |b[0]| <= |row0|
    ensures |row| == |row0|
    ensures forall j :: 0 <= j < |row| ==> row[j] == row0[j] + (if j < |b[0]| then ProductEntry(a, b, i, j) else 0)
  {
    row := row0;
    var j := 0;
    while j < |b[0]|
      invariant 0 <= j <= |b[0]| && |row| == |row0|
      invariant forall l :: 0 <= l < |row| ==> row[l] == row0[l] + (if l < j then ProductEntry(a, b, i, l) else 0)
    {
      row := AccumulateEntry(a, b, i, j, row);
      j := j + 1;
    }
  }

  /**
   * `multiplier`: the outer loop over A's rows. The result is the old
   * result with A·B added onto its first |A| rows and |B[0]| columns.
   */
  method Multiplier(a: seq<seq<int>>, b: seq<seq<int>>, result0: seq<seq<int>>) returns (ok: bool, result: seq<seq<int>>)
    requires Conformable(a, b, result0)
    ensures ok && AddedRows(a, b, result0, result, |a|)
  {
    result := result0;
    var i := 0;
    while i < |a|
      invariant 0 <= i <= |a| && AddedRows(a, b, result0, result, i)
    {
      assert result[i] == result0[i] && |b[0]| <= |result0[..|a|][i]|;
      var row := AccumulateRow(a, b, i, result[i]);
      result := result[i := row];
      i := i + 1;
    }
    ok := true;
  }

  /** A·B as a vector of |A| rows of |B[0]| entries. */
  function Product(a: seq<seq<int>>, b: seq<seq<int>>): (p: seq<seq<int>>)
    requires Shaped(a, b)
    ensures |p| == |a| && forall i :: 0 <= i < |a| ==> |p[i]| == |b[0]|
  {
    seq(|a|, i requires 0 <= i < |a| => seq(|b[0]|, j requires 0 <= j < |b[0]| => ProductEntry(a, b, i, j)))
  }

  /** Added onto a zero matrix of the product's shape, the multiplier's result is A·B. */
  lemma AddedToZeroIsProduct(a: seq<seq<int>>, b: seq<seq<int>>, r: seq<seq<int>>)
    requires Shaped(a, b) && Conformable(a, b, Dense.ZeroMatrix(|a|, |b[0]|))
    requires AddedRows(a, b, Dense.ZeroMatrix(|a|, |b[0]|), r, |a|)
    ensures r == Product(a, b)
  {
    var z, p := Dense.ZeroMatrix(|a|, |b[0]|), Product(a, b);
    forall i | 0 <= i < |a|
      ensures r[i] == p[i]
    {
      forall j | 0 <= j < |b[0]|
        ensures r[i][j] == p[i][j]
      {
        assert r[i][j] == z[i][j] + ProductEntry(a, b, i, j);
      }
    }
  }

  /** Every row of r is `cols` zeros, as in the output matrices the tests hand over. */
  predicate ZeroRows(r: seq<seq<int>>, cols: nat)
  {
    forall i :: 0 <= i < |r| ==> r[i] == seq(cols, _ => 0)
  }

  /** Resizing zero rows with zero rows gives the zero matrix of the new height. */
  lemma ResizeZeroRows(r: seq<seq<int>>, n: nat, cols: nat)
    requires ZeroRows(r, cols)
    ensures ResizeRows(r, n, seq(cols, _ => 0)) == Dense.ZeroMatrix(n, cols)
  {
    var s, z := ResizeRows(r, n, seq(cols, _ => 0)), Dense.ZeroMatrix(n, cols);
    forall i | 0 <= i < n
      ensures s[i] == z[i]
    {
    }
  }

  /** An identity B (n×n) gives back A. */
  lemma ProductIdentity(a: seq<seq<int>>, b: seq<seq<int>>)
    requires Shaped(a, b) && |b| == |a[0]| && |b[0]| == |b|
    requires forall i :: 0 <= i < |a| ==> |a[i]| == |a[0]|
    requires forall k, j {:trigger b[k][j]} :: 0 <= k < |b| && 0 <= j < |b| ==> b[k][j] == (if k == j then 1 else 0)
    ensures Product(a, b) == a
  {
    var n, p := |b|, Product(a, b);
    forall i | 0 <= i < |a|
      ensures p[i] == a[i]
    {
      forall j | 0 <= j < n
        ensures p[i][j] == a[i][j]
      {
        var col := Dense.Column(b[..n], j, n);
        assert col[j] == b[j][j];
        forall k | 0 <= k < n && k != j
          ensures col[k] == 0
        {
          assert col[k] == b[k][j];
        }
        Dense.DotUnit(a[i][..n], col, j);
      }
    }
  }

  /** The dot product of two all-ones vectors is their length. */
  lemma {:induction false} DotOnes(u: seq<int>, v: seq<int>)
    requires |u| == |v|
    requires forall k :: 0 <= k < |u| ==> u[k] == 1 && v[k] == 1
    ensures Dense.Dot(u, v) == |u|
  {
    if |u| > 0 {
      DotOnes(u[..|u| - 1], v[..|v| - 1]);
    }
  }

  /** All-ones A (m×n) times all-ones B (n×l) is n everywhere: the 100×100 test gives 100s. */
  lemma ProductOnes(a: seq<seq<int>>, b: seq<seq<int>>)
    requires Shaped(a, b)
    requires forall i, k {:trigger a[i][k]} :: 0 <= i < |a| && 0 <= k < |a[i]| ==> a[i][k] == 1
    requires forall k, j {:trigger b[k][j]} :: 0 <= k < |b| && 0 <= j < |b[k]| ==> b[k][j] == 1
    ensures forall i, j {:trigger Product(a, b)[i][j]} :: 0 <= i < |a| && 0 <= j < |b[0]| ==> Product(a, b)[i][j] == |a[0]|
  {
    var n, p := |a[0]|, Product(a, b);
    forall i, j | 0 <= i < |a| && 0 <= j < |b[0]|
      ensures p[i][j] == n
    {
      var col := Dense.Column(b[..n], j, n);
      forall k | 0 <= k < n
        ensures a[i][..n][k] == 1 && col[k] == 1
      {
        assert col[k] == b[k][j];
      }
      DotOnes(a[i][..n], col);
    }
  }

  /** The dot product of two three-entry vectors, written out. */
  lemma Dot3(u: seq<int>, v: seq<int>)
    requires |u| == 3 && |v| == 3
    ensures Dense.Dot(u, v) == u[0] * v[0] + u[1] * v[1] + u[2] * v[2]
  {
    assert u == [u[0]] + [u[1]] + [u[2]] && v == [v[0]] + [v[1]] + [v[2]];
    Dense.DotSnoc([], [], u[0], v[0]);
    Dense.DotSnoc([u[0]], [v[0]], u[1], v[1]);
    Dense.DotSnoc([u[0], u[1]], [v[0], v[1]], u[2], v[2]);
  }

  /** The square test case: [[1,2,3],[4,5,6],[7,8,9]] · [[9,8,7],[6,5,4],[3,2,1]]. */
  lemma SquareExample()
    ensures Shaped([[1, 2, 3], [4, 5, 6], [7, 8, 9]], [[9, 8, 7], [6, 5, 4], [3, 2, 1]])
    ensures Product([[1, 2, 3], [4, 5, 6], [7, 8, 9]], [[9, 8, 7], [6, 5, 4], [3, 2, 1]])
      == [[30, 24, 18], [84, 69, 54], [138, 114, 90]]
  {
    var a: seq<seq<int>> := [[1, 2, 3], [4, 5, 6], [7, 8, 9]];
    var b: seq<seq<int>> := [[9, 8, 7], [6, 5, 4], [3, 2, 1]];
    assert b[..3] == b;
    var p := Product(a, b);
    forall i, j | 0 <= i < 3 && 0 <= j < 3
      ensures p[i][j] == a[i][0] * b[0][j] + a[i][1] * b[1][j] + a[i][2] * b[2][j]
    {
      var col := Dense.Column(b, j, 3);
      assert a[i][..3] == a[i];
      Dot3(a[i], col);
    }
    assert p[0] == [30, 24, 18];
    assert p[1] == [84, 69, 54];
    assert p[2] == [138, 114, 90];
  }

  /** A, B and the output matrix are all present. */
  predicate Present(td: MatrixTaskData)
  {
    2 <= |td.inputs| && 1 <= |td.outputs| && td.inputs[0].Matrix? && td.inputs[1].Matrix? && td.outputs[0].Matrix?
  }

  /**
   * The task's state: the task data and the member `result_`, which no
   * stage ever writes (the stages write through the output pointer).
   */
  class MatrixMultiplicationTask {
    var taskData: MatrixTaskData
    var result: seq<seq<int>>

    constructor(td: MatrixTaskData)
      ensures taskData == td && result == []
    {
      taskData := td;
      result := [];
    }

    /**
     * `pre_processing`: with all three pointers present, resize the output
     * to |A| rows, new rows being |B[0]| zeros; otherwise fail.
     */
    method PreProcessing() returns (ok: bool)
      requires 2 <= |taskData.inputs| && 1 <= |taskData.outputs|
      requires Present(taskData) ==> |taskData.inputs[1].rows| != 0
      modifies this
      ensures result == old(result) && ok == Present(old(taskData))
      ensures !ok ==> taskData == old(taskData)
      ensures ok ==> taskData == old(taskData).(outputs := old(taskData).outputs[0 := Matrix(ResizeRows(
        old(taskData).outputs[0].rows, |old(taskData).inputs[0].rows|, seq(|old(taskData).inputs[1].rows[0]|, _ => 0)))])
    {
      var td := taskData;
      if !Present(td) {
        return false;
      }
      var rowsA, colsB := |td.inputs[0].rows|, |td.inputs[1].rows[0]|;
      var resized := ResizeRows(td.outputs[0].rows, rowsA, seq(colsB, _ => 0));
      taskData := td.(outputs := td.outputs[0 := Matrix(resized)]);
      ok := true;
    }

    /** `run`: with all three pointers present, add A·B onto the output through `multiplier`; otherwise fail. */
    method Run() returns (ok: bool)
      requires 2 <= |taskData.inputs| && 1 <= |taskData.outputs|
      requires Present(taskData) ==> Conformable(taskData.inputs[0].rows, taskData.inputs[1].rows, taskData.outputs[0].rows)
      modifies this
      ensures result == old(result) && ok == Present(old(taskData))
      ensures !ok ==> taskData == old(taskData)
      ensures ok ==>
        && taskData.inputs == old(taskData.inputs) && |taskData.outputs| == |old(taskData.outputs)|
        && taskData.outputs[1..] == old(taskData.outputs[1..]) && taskData.outputs[0].Matrix?
        && AddedRows(taskData.inputs[0].rows, taskData.inputs[1].rows, old(taskData.outputs[0].rows), taskData.outputs[0].rows, |taskData.inputs[0].rows|)
    {
      var td := taskData;
      if !Present(td) {
        return false;
      }
      var out;
      ok, out := Multiplier(td.inputs[0].rows, td.inputs[1].rows, td.outputs[0].rows);
      taskData := td.(outputs := td.outputs[0 := Matrix(out)]);
    }

    /**
     * `post_processing` as written: it inspects the member `result_` (the
     * near-zero clamp it would apply leaves integers unchanged) and fails
     * when that is empty.
     */
    method PostProcessing() returns (ok: bool)
      ensures ok <==> |result| != 0
    {
      ok := |result| != 0;
    }

    /** `post_processing` as evidently intended: it inspects the output matrix the stages filled. */
    method PostProcessingOutput() returns (ok: bool)
      ensures ok <==> 1 <= |taskData.outputs| && taskData.outputs[0].Matrix? && |taskData.outputs[0].rows| != 0
    {
      ok := 1 <= |taskData.outputs| && taskData.outputs[0].Matrix? && |taskData.outputs[0].rows| != 0;
    }
  }

  /**
   * The whole task on valid operands and a zero-filled output, as the unit
   * tests run it: validation, pre_processing and run succeed and leave A·B
   * in the output, yet post_processing, reading the never-written
   * `result_`, fails.
   */
  method AsWrittenLifecycle(a: seq<seq<int>>, b: seq<seq<int>>, out: seq<seq<int>>)
    returns (valid: bool, pre: bool, run: bool, post: bool, product: seq<seq<int>>)
    requires Shaped(a, b) && |a[0]| == |b| && ZeroRows(out, |b[0]|)
    ensures valid && pre && run && product == Product(a, b)
    ensures !post
  {
    var td := MatrixTaskData([Matrix(a), Matrix(b)], [Matrix(out)]);
    var task := new MatrixMultiplicationTask(td);
    valid := Validation(td);
    pre := task.PreProcessing();
    ResizeZeroRows(out, |a|, |b[0]|);
    run := task.Run();
    product := task.taskData.outputs[0].rows;
    AddedToZeroIsProduct(a, b, product);
    post := task.PostProcessing();
  }

  /** With post_processing reading the output matrix, all four stages succeed. */
  method CorrectedLifecycle(a: seq<seq<int>>, b: seq<seq<int>>, out: seq<seq<int>>)
    returns (valid: bool, pre: bool, run: bool, post: bool, product: seq<seq<int>>)
    requires Shaped(a, b) && |a[0]| == |b| && ZeroRows(out, |b[0]|)
    ensures valid && pre && run && post && product == Product(a, b)
  {
    var td := MatrixTaskData([Matrix(a), Matrix(b)], [Matrix(out)]);
    var task := new MatrixMultiplicationTask(td);
    valid := Validation(td);
    pre := task.PreProcessing();
    ResizeZeroRows(out, |a|, |b[0]|);
    run := task.Run();
    product := task.taskData.outputs[0].rows;
    AddedToZeroIsProduct(a, b, product);
    post := task.PostProcessingOutput();
  }
}
