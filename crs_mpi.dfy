/**
 * The distributed CRS multiply task (borisov_s_crs_mul, mpi). The root reads
 * both operands; every rank multiplies a contiguous block of C's rows with
 * the same dense-accumulator kernel as the sequential task; the root
 * gathers the fragments and splices them, shifting each later fragment's
 * row_ptr by the running last entry.
 *
 * The world of `size` ranks is modelled by running every rank's local
 * computation in turn: broadcast gives each rank the root's operands, and
 * gather is the list of per-rank fragments in rank order.
 */
module CrsMpi {
  import opened Task
  import opened Crs
  import CrsKernel

  // ---------------------------------------------------------------------
  // Row partition
  // ---------------------------------------------------------------------

  /** First row of rank r's block: r * (C_nrows / size). */
  function RowStart(r: int, size: int, n: int): int
    requires 1 <= size && 0 <= n
  {
    r * (n / size)
  }

  /**
   * One past the last row of rank r's block; the last rank also takes the
   * remainder. Every block lies inside [0, n).
   */
  function RowEnd(r: int, size: int, n: int): (e: int)
    requires 1 <= size && 0 <= n
    ensures 0 <= r < size ==> 0 <= RowStart(r, size, n) <= e <= n
  {
    BlockBounds(r, size, n);
    if r == size - 1 then n else RowStart(r, size, n) + n / size
  }

  /** The arithmetic behind RowEnd's bounds: r blocks of n / size rows, and r + 1 of them when r + 1 < size, fit in n. */
  lemma BlockBounds(r: int, size: int, n: int)
    requires 1 <= size && 0 <= n
    ensures 0 <= r < size ==> 0 <= r * (n / size) <= n
    ensures 0 <= r < size - 1 ==> r * (n / size) + n / size <= n
  {
    var q := n / size;
    if 0 <= r < size {
      Dense.MulMono(0, r, q);
      Dense.MulMono(r, size, q);
      if r < size - 1 {
        Dense.MulMono(r + 1, size, q);
        assert (r + 1) * q == r * q + q;
      }
    }
  }

  /** Consecutive blocks meet: each block ends where the next begins. */
  lemma RowRangesContiguous(r: int, size: int, n: int)
    requires 1 <= size && 0 <= n && 0 <= r && r + 1 < size
    ensures RowEnd(r, size, n) == RowStart(r + 1, size, n)
  {
    assert (r + 1) * (n / size) == r * (n / size) + n / size;
  }

  /** Together the blocks cover [0, n): the first starts at 0, the last ends at n. */
  lemma RowRangesCover(size: int, n: int)
    requires 1 <= size && 0 <= n
    ensures RowStart(0, size, n) == 0 && RowEnd(size - 1, size, n) == n
  {
  }

  /** Blocks of different ranks do not overlap: an earlier block ends before a later one starts. */
  lemma {:induction false} RowRangesDisjoint(r: int, r': int, size: int, n: int)
    requires 1 <= size && 0 <= n && 0 <= r < r' < size
    ensures RowEnd(r, size, n) <= RowStart(r', size, n)
    decreases r' - r
  {
    RowRangesContiguous(r, size, n);
    if r + 1 < r' {
      RowRangesDisjoint(r + 1, r', size, n);
    }
  }

  /** Where the spliced result stands after the fragments of ranks 0 .. i - 1. */
  function PrefixEnd(i: int, size: int, n: int): int
    requires 1 <= size && 0 <= n
  {
    if i == 0 then 0 else RowEnd(i - 1, size, n)
  }

  // ---------------------------------------------------------------------
  // Validation
  // ---------------------------------------------------------------------

  /**
   * What validation reads on the root: A's col_index buffer with
   * inputs_count[1] entries, once the buffer counts have been checked.
   */
  predicate ValidationReadable(td: TaskData, rank: nat)
  {
    (rank == 0 && |td.inputs| == 6 && |td.outputs| == 3 && |td.inputsCount| >= 6 && |td.outputsCount| >= 3)
      ==> InputHolds(td, 1, td.inputsCount[1])
  }

  /**
   * `validation`: non-root ranks accept; the root demands six inputs, three
   * outputs, at least six and three counts, and A's derived column count
   * equal to B's row count.
   */
  predicate Validation(td: TaskData, rank: nat)
    requires ValidationReadable(td, rank)
  {
    rank != 0 ||
    (&& |td.inputs| == 6 && |td.outputs| == 3
     && |td.inputsCount| >= 6 && |td.outputsCount| >= 3
     && ColumnCount(Input(td, 1, td.inputsCount[1])) == td.inputsCount[5] as int - 1)
  }

  /** The buffers the root's pre_processing reads, each with its own count. */
  predicate Readable(td: TaskData)
  {
    && InputFilled(td, 0) && InputFilled(td, 1) && InputFilled(td, 2)
    && InputFilled(td, 3) && InputFilled(td, 4) && InputFilled(td, 5)
  }

  /** A as the root reads it. */
  function OperandA(td: TaskData): (m: CrsMatrix)
    requires Readable(td)
    ensures |m.values| == td.inputsCount[0] && |m.colIndex| == td.inputsCount[1] && NRows(m) == td.inputsCount[2] as int - 1
  {
    CrsMatrix(Input(td, 0, td.inputsCount[0]), Input(td, 1, td.inputsCount[1]), Input(td, 2, td.inputsCount[2]))
  }

  /** B as the root reads it. */
  function OperandB(td: TaskData): (m: CrsMatrix)
    requires Readable(td)
    ensures |m.values| == td.inputsCount[3] && |m.colIndex| == td.inputsCount[4] && NRows(m) == td.inputsCount[5] as int - 1
  {
    CrsMatrix(Input(td, 3, td.inputsCount[3]), Input(td, 4, td.inputsCount[4]), Input(td, 5, td.inputsCount[5]))
  }

  /**
   * On the root, validation guarantees what the kernel needs of consistent
   * operands: A's columns name rows of B.
   */
  lemma ValidationCompatible(td: TaskData)
    requires Readable(td) && |td.inputs| == 6 && |td.outputs| == 3 && |td.outputsCount| >= 3
    requires WellFormed(OperandA(td), ColumnCount(OperandA(td).colIndex))
    requires WellFormed(OperandB(td), ColumnCount(OperandB(td).colIndex))
    requires Validation(td, 0)
    ensures Compatible(OperandA(td), OperandB(td), ColumnCount(OperandB(td).colIndex))
  {
  }

  /** A = [[1, 1]] (two columns) against B = [[1]] (one row). */
  const MismatchData := TaskData(
    [Data([1, 1]), Data([0, 1]), Data([0, 2]), Data([1]), Data([0]), Data([0, 1])],
    [2, 2, 2, 1, 1, 2], [Null, Null, Null], [0, 0, 0])

  /** The root rejects operands whose shapes do not match; other ranks accept anything. */
  lemma ValidationRejectsMismatch(rank: nat)
    ensures ValidationReadable(MismatchData, rank)
    ensures Validation(MismatchData, rank) <==> rank != 0
  {
    assert Input(MismatchData, 1, 2) == [0, 1];
  }

  // ---------------------------------------------------------------------
  // The task
  // ---------------------------------------------------------------------

  /**
   * The task's state on the root. Each operand's three arrays are held
   * together as one CrsMatrix value.
   */
  class CrsMatrixMulTaskMpi {
    var taskData: TaskData
    var a: CrsMatrix
    var b: CrsMatrix
    var c: CrsMatrix
    var aNrows: int
    var aNcols: int
    var bNrows: int
    var bNcols: int
    var cNrows: int
    var cNcols: int

    constructor(td: TaskData)
      ensures taskData == td
    {
      taskData := td;
    }

    /**
     * `pre_processing`: on the root, read both operands (each array with
     * its own count), derive the column counts, and give C A's rows, B's
     * columns, a zero row_ptr and no entries. Other ranks do nothing.
     */
    method PreProcessing(rank: nat) returns (ok: bool)
      requires rank == 0 ==> Readable(taskData)
      modifies this
      ensures ok && taskData == old(taskData)
      ensures rank != 0 ==> a == old(a) && b == old(b) && c == old(c) && cNrows == old(cNrows) && cNcols == old(cNcols)
      ensures rank != 0 ==> aNrows == old(aNrows) && aNcols == old(aNcols) && bNrows == old(bNrows) && bNcols == old(bNcols)
      ensures rank == 0 ==>
        && a == OperandA(taskData) && b == OperandB(taskData)
        && aNrows == NRows(a) && bNrows == NRows(b)
        && aNcols == ColumnCount(a.colIndex) && bNcols == ColumnCount(b.colIndex)
        && cNrows == aNrows && cNcols == bNcols
        && c == CrsMatrix([], [], Zeros(|a.rowPtr|))
    {
      if rank == 0 {
        var td := taskData;
        var opA, opB := OperandA(td), OperandB(td);
        a, b := opA, opB;
        aNrows, bNrows := NRows(opA), NRows(opB);
        aNcols, bNcols := ColumnCount(opA.colIndex), ColumnCount(opB.colIndex);
        cNrows, cNcols := aNrows, bNcols;
        c := CrsMatrix([], [], Zeros(|opA.rowPtr|));
      }
      ok := true;
    }

    /**
     * `run` over a world of `size` ranks: every rank multiplies its block of
     * rows, the root appends the gathered values and columns to C and
     * splices the row_ptr fragments. Whatever the number of ranks, C is the
     * product the sequential kernel computes over all rows.
     */
    method Run(size: nat) returns (ok: bool)
      requires 1 <= size && cNcols >= 0 && Compatible(a, b, cNcols) && cNrows == NRows(a)
      modifies this
      ensures ok
      ensures a == old(a) && b == old(b) && cNrows == old(cNrows) && cNcols == old(cNcols) && taskData == old(taskData)
      ensures aNrows == old(aNrows) && aNcols == old(aNcols) && bNrows == old(bNrows) && bNcols == old(bNcols)
      ensures var p := Product(a, b, cNcols, 0, cNrows);
        && c.values == old(c.values) + p.values && c.colIndex == old(c.colIndex) + p.colIndex
        && c.rowPtr == p.rowPtr
    {
      var fragments := LocalFragments(a, b, cNcols, cNrows, size);
      var values, colIndex, rowPtr := SpliceFragments(a, b, cNcols, cNrows, size, fragments, c.values, c.colIndex, c.rowPtr);
      c := CrsMatrix(values, colIndex, rowPtr);
      ok := true;
    }

    /** `post_processing`: on the root, publish C's three arrays and their lengths; other ranks do nothing. */
    method PostProcessing(rank: nat) returns (ok: bool)
      requires rank == 0 ==> |taskData.outputs| >= 3 && |taskData.outputsCount| >= 3
      modifies this
      ensures ok && c == old(c) && a == old(a) && b == old(b)
      ensures aNrows == old(aNrows) && aNcols == old(aNcols) && bNrows == old(bNrows) && bNcols == old(bNcols)
      ensures cNrows == old(cNrows) && cNcols == old(cNcols)
      ensures rank != 0 ==> taskData == old(taskData)
      ensures rank == 0 ==>
        && taskData.outputsCount == [|c.values|, |c.colIndex|, |c.rowPtr|] + old(taskData.outputsCount)[3..]
        && taskData.outputs == [Data(c.values), Data(c.colIndex), Data(c.rowPtr)] + old(taskData.outputs)[3..]
        && taskData.inputs == old(taskData.inputs) && taskData.inputsCount == old(taskData.inputsCount)
    {
      if rank == 0 {
        var td := taskData;
        taskData := td.(outputsCount := [|c.values|, |c.colIndex|, |c.rowPtr|] + td.outputsCount[3..],
                        outputs := [Data(c.values), Data(c.colIndex), Data(c.rowPtr)] + td.outputs[3..]);
      }
      ok := true;
    }
  }

  /**
   * Every rank's local computation, gathered in rank order: rank r runs the
   * kernel over rows RowStart(r) .. RowEnd(r), so its fragment is the
   * product over that block.
   */
  method LocalFragments(a: CrsMatrix, b: CrsMatrix, ncols: nat, n: int, size: nat) returns (fragments: seq<CrsMatrix>)
    requires 1 <= size && Compatible(a, b, ncols) && n == NRows(a)
    ensures |fragments| == size
    ensures forall r :: 0 <= r < size ==> fragments[r] == Product(a, b, ncols, RowStart(r, size, n), RowEnd(r, size, n))
  {
    fragments := [];
    var r := 0;
    while r < size
      invariant 0 <= r <= size && |fragments| == r
      invariant forall k :: 0 <= k < r ==> fragments[k] == Product(a, b, ncols, RowStart(k, size, n), RowEnd(k, size, n))
    {
      var startRow, endRow := RowStart(r, size, n), RowEnd(r, size, n);
      var values, colIndex, rowPtr := CrsKernel.MultiplyRows(a, b, ncols, startRow, endRow);
      fragments := fragments + [CrsMatrix(values, colIndex, rowPtr)];
      r := r + 1;
    }
  }

  /**
   * The root's splice: append every fragment's values and columns in rank
   * order; take fragment 0's row_ptr as it is, and push each later
   * fragment's row_ptr entries from index 1 on, shifted by the current last
   * entry. The result is the product over all n rows.
   */
  method SpliceFragments(a: CrsMatrix, b: CrsMatrix, ncols: nat, n: int, size: nat, fragments: seq<CrsMatrix>,
                         values0: seq<int>, colIndex0: seq<int>, rowPtr0: seq<int>)
    returns (values: seq<int>, colIndex: seq<int>, rowPtr: seq<int>)
    requires 1 <= size && Compatible(a, b, ncols) && n == NRows(a) && |fragments| == size
    requires forall r :: 0 <= r < size ==> fragments[r] == Product(a, b, ncols, RowStart(r, size, n), RowEnd(r, size, n))
    ensures var p := Product(a, b, ncols, 0, n);
      values == values0 + p.values && colIndex == colIndex0 + p.colIndex && rowPtr == p.rowPtr
  {
    values, colIndex, rowPtr := values0, colIndex0, rowPtr0;
    var i := 0;
    ProductEmpty(a, b, ncols, 0);
    assert values0 + [] == values0 && colIndex0 + [] == colIndex0;
    while i < size
      invariant 0 <= i <= size
      invariant values == values0 + Product(a, b, ncols, 0, PrefixEnd(i, size, n)).values
      invariant colIndex == colIndex0 + Product(a, b, ncols, 0, PrefixEnd(i, size, n)).colIndex
      invariant i > 0 ==> rowPtr == Product(a, b, ncols, 0, PrefixEnd(i, size, n)).rowPtr
    {
      ghost var done, next := Product(a, b, ncols, 0, PrefixEnd(i, size, n)), Product(a, b, ncols, 0, PrefixEnd(i + 1, size, n));
      var frag := fragments[i];
      SpliceInvariantStep(a, b, ncols, n, size, i);
      SpliceLoopStep(done, frag, next, values0, colIndex0, values, colIndex, rowPtr, i == 0);
      values, colIndex, rowPtr := SpliceOne(values, colIndex, rowPtr, frag, i == 0);
      i := i + 1;
    }
  }

  /**
   * One pass of the root's splice loop: append the fragment's values and
   * columns; take the first fragment's row_ptr as it is, and for a later one
   * push its entries from index 1 on, shifted by the current last entry.
   */
  method SpliceOne(values: seq<int>, colIndex: seq<int>, rowPtr: seq<int>, frag: CrsMatrix, first: bool)
    returns (values': seq<int>, colIndex': seq<int>, rowPtr': seq<int>)
    requires |frag.rowPtr| >= 1 && (!first ==> |rowPtr| >= 1)
    ensures values' == values + frag.values && colIndex' == colIndex + frag.colIndex
    ensures first ==> rowPtr' == frag.rowPtr
    ensures !first ==> rowPtr' == rowPtr + Shift(frag.rowPtr[1..], rowPtr[|rowPtr| - 1])
  {
    values' := values + frag.values;
    colIndex' := colIndex + frag.colIndex;
    if first {
      rowPtr' := frag.rowPtr;
    } else {
      var offset := rowPtr[|rowPtr| - 1];
      rowPtr' := AppendShifted(rowPtr, frag.rowPtr, offset);
    }
  }

  /** One pass of the splice loop on abstract matrices: done spliced with frag is next. */
  lemma SpliceLoopStep(done: CrsMatrix, frag: CrsMatrix, next: CrsMatrix, values0: seq<int>, colIndex0: seq<int>,
                       values: seq<int>, colIndex: seq<int>, rowPtr: seq<int>, first: bool)
    requires done.values + frag.values == next.values && done.colIndex + frag.colIndex == next.colIndex
    requires |frag.rowPtr| >= 1 && (first ==> frag.rowPtr == next.rowPtr)
    requires |done.rowPtr| >= 1 && done.rowPtr + Shift(frag.rowPtr[1..], done.rowPtr[|done.rowPtr| - 1]) == next.rowPtr
    requires values == values0 + done.values && colIndex == colIndex0 + done.colIndex
    requires !first ==> rowPtr == done.rowPtr
    ensures values + frag.values == values0 + next.values && colIndex + frag.colIndex == colIndex0 + next.colIndex
    ensures !first ==> |rowPtr| >= 1 && rowPtr + Shift(frag.rowPtr[1..], rowPtr[|rowPtr| - 1]) == next.rowPtr
  {
    assert values + frag.values == values0 + (done.values + frag.values);
    assert colIndex + frag.colIndex == colIndex0 + (done.colIndex + frag.colIndex);
  }

  /** The inner splice loop: push rowPtr[j] + offset for every j >= 1 of a fragment's row_ptr. */
  method AppendShifted(rowPtr: seq<int>, fragRowPtr: seq<int>, offset: int) returns (rowPtr': seq<int>)
    requires |fragRowPtr| >= 1
    ensures rowPtr' == rowPtr + Shift(fragRowPtr[1..], offset)
  {
    rowPtr' := rowPtr;
    var j := 1;
    while j < |fragRowPtr|
      invariant 1 <= j <= |fragRowPtr|
      invariant rowPtr' == rowPtr + Shift(fragRowPtr[1..j], offset)
    {
      assert Shift(fragRowPtr[1..j + 1], offset) == Shift(fragRowPtr[1..j], offset) + [fragRowPtr[j] + offset];
      rowPtr' := rowPtr' + [fragRowPtr[j] + offset];
      j := j + 1;
    }
  }

  /**
   * Splicing rank i's fragment onto the product over the rows of ranks
   * 0 .. i - 1 gives the product over the rows of ranks 0 .. i; for i = 0
   * the fragment itself is that product.
   */
  lemma SpliceInvariantStep(a: CrsMatrix, b: CrsMatrix, ncols: nat, n: int, size: nat, i: int)
    requires 1 <= size && Compatible(a, b, ncols) && n == NRows(a) && 0 <= i < size
    ensures 0 <= PrefixEnd(i, size, n) == RowStart(i, size, n) <= RowEnd(i, size, n) == PrefixEnd(i + 1, size, n) <= n
    ensures var done, frag := Product(a, b, ncols, 0, PrefixEnd(i, size, n)), Product(a, b, ncols, RowStart(i, size, n), RowEnd(i, size, n));
      var next := Product(a, b, ncols, 0, PrefixEnd(i + 1, size, n));
      && done.values + frag.values == next.values
      && done.colIndex + frag.colIndex == next.colIndex
      && |frag.rowPtr| >= 1
      && (i == 0 ==> frag.rowPtr == next.rowPtr)
      && done.rowPtr[|done.rowPtr| - 1] == |done.values|
      && done.rowPtr + Shift(frag.rowPtr[1..], done.rowPtr[|done.rowPtr| - 1]) == next.rowPtr
  {
    if i > 0 {
      RowRangesContiguous(i - 1, size, n);
    }
    var m, e := PrefixEnd(i, size, n), RowEnd(i, size, n);
    SpliceProduct(a, b, ncols, 0, m, e);
    ProductWellFormed(a, b, ncols, 0, m);
    if i == 0 {
      ProductEmpty(a, b, ncols, 0);
      SpliceEmptyLeft(Product(a, b, ncols, 0, e));
    }
  }

  /** Splicing onto the empty product changes nothing. */
  lemma SpliceEmptyLeft(f: CrsMatrix)
    requires |f.rowPtr| >= 1 && f.rowPtr[0] == 0
    ensures Splice(CrsMatrix([], [], [0]), f) == f
  {
    assert [0] + Shift(f.rowPtr[1..], 0) == f.rowPtr;
  }
}
