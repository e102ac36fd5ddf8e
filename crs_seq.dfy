/**
 * The sequential CRS multiply task (borisov_s_crs_mul, seq): inputs are A's
 * values, col_index, row_ptr and B's values, col_index, row_ptr (six
 * buffers), outputs are C's three arrays.
 */
module CrsSeq {
  import opened Task
  import opened Crs
  import CrsKernel

  /**
   * `validation`: six input and three output buffers, at least six and three
   * counts, and both row_ptr arrays long enough for one row (the counts are
   * unsigned, so a zero count gives -1 rows after the cast).
   */
  predicate Validation(td: TaskData)
  {
    && |td.inputs| == 6 && |td.outputs| == 3
    && |td.inputsCount| >= 6 && |td.outputsCount| >= 3
    && td.inputsCount[2] as int - 1 > 0 && td.inputsCount[5] as int - 1 > 0
  }

  /** The buffers pre_processing reads: A's arrays hold A_nnz = inputs_count[0] entries, B's B_nnz = inputs_count[3]. */
  predicate Readable(td: TaskData)
  {
    && |td.inputsCount| >= 6
    && InputHolds(td, 0, td.inputsCount[0]) && InputHolds(td, 1, td.inputsCount[0]) && InputFilled(td, 2)
    && InputHolds(td, 3, td.inputsCount[3]) && InputHolds(td, 4, td.inputsCount[3]) && InputFilled(td, 5)
  }

  /** A as pre_processing reads it: col_index is read with A's value count. */
  function OperandA(td: TaskData): CrsMatrix
    requires Readable(td)
  {
    CrsMatrix(Input(td, 0, td.inputsCount[0]), Input(td, 1, td.inputsCount[0]), Input(td, 2, td.inputsCount[2]))
  }

  /** B as pre_processing reads it. */
  function OperandB(td: TaskData): CrsMatrix
    requires Readable(td)
  {
    CrsMatrix(Input(td, 3, td.inputsCount[3]), Input(td, 4, td.inputsCount[3]), Input(td, 5, td.inputsCount[5]))
  }

  /** A validated task with readable buffers has at least one row in A and one in B. */
  lemma ValidationRows(td: TaskData)
    requires Readable(td) && Validation(td)
    ensures NRows(OperandA(td)) >= 1 && NRows(OperandB(td)) >= 1
    ensures NRows(OperandA(td)) == td.inputsCount[2] as int - 1 && NRows(OperandB(td)) == td.inputsCount[5] as int - 1
  {
  }

  /** A CRS operand whose arrays are consistent, with its own derived column count. */
  predicate Shaped(m: CrsMatrix)
  {
    WellFormed(m, ColumnCount(m.colIndex))
  }

  /**
   * The operands of the task data below: A = [[1, 1]] (one row, two
   * columns) and B = [[1]] (one row).
   */
  const MismatchData := TaskData(
    [Data([1, 1]), Data([0, 1]), Data([0, 2]), Data([1]), Data([0]), Data([0, 1])],
    [2, 2, 2, 1, 1, 2], [Null, Null, Null], [0, 0, 0])

  /**
   * As written, validation accepts operands whose shapes do not match: A
   * has two columns, B one row, and run would read B_row_ptr_[2] past the
   * end of B's two-entry row_ptr.
   */
  lemma ValidationAcceptsMismatch()
    ensures Readable(MismatchData) && Validation(MismatchData)
    ensures Shaped(OperandA(MismatchData)) && Shaped(OperandB(MismatchData))
    ensures var a, b := OperandA(MismatchData), OperandB(MismatchData);
      && !Compatible(a, b, ColumnCount(b.colIndex))
      && a.colIndex[1] + 1 >= |b.rowPtr|
  {
    var td := MismatchData;
    assert OperandA(td) == CrsMatrix([1, 1], [0, 1], [0, 2]);
    assert OperandB(td) == CrsMatrix([1], [0], [0, 1]);
  }

  /** Validation with the dimension check the distributed variant makes: A's column count equals B's row count. */
  predicate ValidationChecked(td: TaskData)
  {
    && Validation(td) && Readable(td)
    && ColumnCount(OperandA(td).colIndex) == td.inputsCount[5] as int - 1
  }

  /**
   * With the dimension check, consistent operands are exactly what run's
   * kernel needs: A's columns name rows of B, and C has A's rows and B's
   * derived columns.
   */
  lemma ValidationCheckedCompatible(td: TaskData)
    requires ValidationChecked(td) && Shaped(OperandA(td)) && Shaped(OperandB(td))
    ensures var a, b := OperandA(td), OperandB(td);
      && Compatible(a, b, ColumnCount(b.colIndex)) && ColumnCount(b.colIndex) >= 0 && NRows(a) >= 1
  {
  }

  /** The corrected check rejects the mismatched operands that validation accepts. */
  lemma ValidationCheckedRejectsMismatch()
    ensures Validation(MismatchData) && !ValidationChecked(MismatchData)
  {
    ValidationAcceptsMismatch();
  }

  /**
   * The task's state. Each operand's three parallel arrays (A_values_,
   * A_col_index_, A_row_ptr_ and likewise for B and C) are held together as
   * one CrsMatrix value.
   */
  class CrsMatrixMulTask {
    var taskData: TaskData
    var a: CrsMatrix
    var b: CrsMatrix
    var c: CrsMatrix
    var aNrows: int
    var aNcols: int
    var aNnz: int
    var bNrows: int
    var bNcols: int
    var bNnz: int
    var cNrows: int
    var cNcols: int
    var cNnz: int

    constructor(td: TaskData)
      ensures taskData == td
    {
      taskData := td;
    }

    /** `initialize`: the operand arrays and dimensions become the arguments; C's dimensions follow from them. */
    method Initialize(aValues: seq<int>, aColIndex: seq<int>, aRowPtr: seq<int>,
                      bValues: seq<int>, bColIndex: seq<int>, bRowPtr: seq<int>,
                      aNrows: int, aNcols: int, bNrows: int, bNcols: int)
      modifies this
      ensures a == CrsMatrix(aValues, aColIndex, aRowPtr) && b == CrsMatrix(bValues, bColIndex, bRowPtr)
      ensures this.aNrows == aNrows && this.aNcols == aNcols && this.bNrows == bNrows && this.bNcols == bNcols
      ensures cNrows == aNrows && cNcols == bNcols
      ensures c == old(c) && aNnz == old(aNnz) && bNnz == old(bNnz) && cNnz == old(cNnz)
      ensures taskData == old(taskData)
    {
      a := CrsMatrix(aValues, aColIndex, aRowPtr);
      b := CrsMatrix(bValues, bColIndex, bRowPtr);
      this.aNrows, this.aNcols, this.bNrows, this.bNcols := aNrows, aNcols, bNrows, bNcols;
      cNrows, cNcols := aNrows, bNcols;
    }

    /**
     * `pre_processing`: copy the operands out of the buffers, derive each
     * column count as the largest column index plus one, and give C
     * A's rows, B's columns, a zero row_ptr and no entries.
     */
    method PreProcessing() returns (ok: bool)
      requires Readable(taskData)
      modifies this
      ensures ok && taskData == old(taskData) && cNnz == old(cNnz)
      ensures a == OperandA(taskData) && b == OperandB(taskData)
      ensures aNnz == taskData.inputsCount[0] && bNnz == taskData.inputsCount[3]
      ensures aNrows == taskData.inputsCount[2] as int - 1 && bNrows == taskData.inputsCount[5] as int - 1
      ensures aNcols == ColumnCount(a.colIndex) && bNcols == ColumnCount(b.colIndex)
      ensures cNrows == aNrows && cNcols == bNcols
      ensures c.values == [] && c.colIndex == [] && |c.rowPtr| == cNrows + 1
      ensures forall k :: 0 <= k < |c.rowPtr| ==> c.rowPtr[k] == 0
    {
      var td := taskData;
      var opA, opB := OperandA(td), OperandB(td);
      a, aNnz, aNrows, aNcols := opA, td.inputsCount[0], td.inputsCount[2] as int - 1, ColumnCount(opA.colIndex);
      b, bNnz, bNrows, bNcols := opB, td.inputsCount[3], td.inputsCount[5] as int - 1, ColumnCount(opB.colIndex);
      cNrows, cNcols := aNrows, bNcols;
      c := CrsMatrix([], [], Zeros(td.inputsCount[2]));
      ok := true;
    }

    /**
     * `run`: the dense-accumulator kernel over all of C's rows. The kernel
     * pushes onto whatever C_values_ / C_col_index_ already hold and writes
     * their running size into C_row_ptr_[0 .. C_nrows]; entries of
     * C_row_ptr_ beyond index C_nrows are not touched.
     */
    method Run() returns (ok: bool)
      requires cNcols >= 0 && Compatible(a, b, cNcols) && cNrows == NRows(a) && |c.rowPtr| >= cNrows + 1
      modifies this
      ensures ok
      ensures a == old(a) && b == old(b) && cNrows == old(cNrows) && cNcols == old(cNcols) && taskData == old(taskData)
      ensures aNrows == old(aNrows) && aNcols == old(aNcols) && aNnz == old(aNnz)
      ensures bNrows == old(bNrows) && bNcols == old(bNcols) && bNnz == old(bNnz)
      ensures var p := Product(a, b, cNcols, 0, cNrows);
        && c.values == old(c.values) + p.values && c.colIndex == old(c.colIndex) + p.colIndex
        && c.rowPtr == Shift(p.rowPtr, |old(c.values)|) + old(c.rowPtr)[cNrows + 1..]
      ensures cNnz == |c.values|
    {
      var values, colIndex, rowPtr := CrsKernel.MultiplyRows(a, b, cNcols, 0, cNrows);
      c := CrsMatrix(c.values + values, c.colIndex + colIndex, Shift(rowPtr, |c.values|) + c.rowPtr[cNrows + 1..]);
      cNnz := |c.values|;
      ok := true;
    }

    /** `post_processing`: publish C's three arrays and their lengths as the three outputs. */
    method PostProcessing() returns (ok: bool)
      requires |taskData.outputs| >= 3 && |taskData.outputsCount| >= 3
      modifies this
      ensures ok && c == old(c) && a == old(a) && b == old(b)
      ensures aNrows == old(aNrows) && aNcols == old(aNcols) && aNnz == old(aNnz)
      ensures bNrows == old(bNrows) && bNcols == old(bNcols) && bNnz == old(bNnz)
      ensures cNrows == old(cNrows) && cNcols == old(cNcols) && cNnz == old(cNnz)
      ensures taskData.outputsCount == [|c.values|, |c.colIndex|, |c.rowPtr|] + old(taskData.outputsCount)[3..]
      ensures taskData.outputs == [Data(c.values), Data(c.colIndex), Data(c.rowPtr)] + old(taskData.outputs)[3..]
      ensures taskData.inputs == old(taskData.inputs) && taskData.inputsCount == old(taskData.inputsCount)
    {
      var td := taskData;
      taskData := td.(outputsCount := [|c.values|, |c.colIndex|, |c.rowPtr|] + td.outputsCount[3..],
                      outputs := [Data(c.values), Data(c.colIndex), Data(c.rowPtr)] + td.outputs[3..]);
      ok := true;
    }
  }
}
