/**
 * The parallel class of plekhanov_d_allreduce_mine: columns are split into
 * contiguous blocks, one per rank; each rank scans its own columns from
 * INT_MAX, a hand-written tree all-reduce combines the ranks' minima, each
 * rank counts the entries above the minimum in its own columns, and a sum
 * reduction gathers the counts on the root.
 *
 * The world of `size` ranks is modelled as loops over r = 0 .. size - 1,
 * one pass per rank; messages become values handed from one pass to the
 * next.
 */
module AllreduceMine {
  import opened Task
  import opened ColumnMin
  import Dense

  /** The first column of rank r: delta * r, where delta = cols / size. */
  function ColStart(r: nat, size: nat, cols: nat): nat
    requires 1 <= size
  {
    (cols / size) * r
  }

  /** One past the last column of rank r; the last rank also takes the cols % size leftover columns. */
  function ColEnd(r: nat, size: nat, cols: nat): (e: nat)
    requires 1 <= size
    ensures r < size ==> ColStart(r, size, cols) <= e <= cols
  {
    var delta, extra := cols / size, cols % size;
    var e := if r == size - 1 then ColStart(r, size, cols) + delta + extra else ColStart(r, size, cols) + delta;
    if r < size then ColBounds(r, size, cols); e else e
  }

  /** Rank r < size's block, delta columns from delta * r, fits inside the columns. */
  lemma ColBounds(r: nat, size: nat, cols: nat)
    requires r < size
    ensures (cols / size) * r + cols / size <= cols
  {
    Dense.MulMono(r + 1, size, cols / size);
  }

  /** Each rank's block ends where the next one starts, and the last one ends at cols. */
  lemma ColRangesContiguous(r: nat, size: nat, cols: nat)
    requires 1 <= size && r < size
    ensures r + 1 < size ==> ColEnd(r, size, cols) == ColStart(r + 1, size, cols)
    ensures r + 1 == size ==> ColEnd(r, size, cols) == cols
  {
  }

  /** Blocks are in rank order: a lower rank's block ends before a higher rank's block starts. */
  lemma ColRangesOrdered(r1: nat, r2: nat, size: nat, cols: nat)
    requires r1 < r2 < size
    ensures ColEnd(r1, size, cols) <= ColStart(r2, size, cols)
  {
    var delta := cols / size;
    assert ColEnd(r1, size, cols) == delta * r1 + delta;
    Dense.MulMono(r1 + 1, r2, delta);
    assert (r1 + 1) * delta == delta * r1 + delta;
  }

  /** The last rank's block runs from its start to cols. */
  lemma LastBlock(c: nat, size: nat, cols: nat)
    requires 1 <= size && (cols / size) * (size - 1) <= c < cols
    ensures ColStart(size - 1, size, cols) <= c < ColEnd(size - 1, size, cols)
  {
    var delta, extra := cols / size, cols % size;
    assert cols == delta * size + extra;
    Dense.MulDistrib(size - 1, 1, delta);
  }

  /** A rank below the last one holds exactly the delta columns from delta * q. */
  lemma MiddleBlock(c: nat, size: nat, cols: nat, q: nat)
    requires q + 1 < size && q * (cols / size) <= c < q * (cols / size) + cols / size
    ensures ColStart(q, size, cols) <= c < ColEnd(q, size, cols)
  {
  }

  /** A column at or past the last rank's start delta * (size - 1), with q * delta <= c, is the last rank's. */
  lemma TailBlock(c: nat, size: nat, cols: nat, q: nat)
    requires 1 <= size && size - 1 <= q && q * (cols / size) <= c < cols
    ensures ColStart(size - 1, size, cols) <= c < ColEnd(size - 1, size, cols)
  {
    Dense.MulMono(size - 1, q, cols / size);
    LastBlock(c, size, cols);
  }

  /** Some rank's block holds column c. */
  lemma OwnerOf(c: nat, size: nat, cols: nat) returns (owner: nat)
    requires 1 <= size && c < cols
    ensures owner < size && ColStart(owner, size, cols) <= c < ColEnd(owner, size, cols)
  {
    if cols / size == 0 {
      owner := size - 1;
      LastBlock(c, size, cols);
    } else {
      var q := Dense.Quotient(c, cols / size);
      owner := BlockOwner(c, size, cols, q);
    }
  }

  /** With c in the q-th delta-wide stretch, rank q owns c, or the last rank does when q is past it. */
  lemma BlockOwner(c: nat, size: nat, cols: nat, q: nat) returns (owner: nat)
    requires 1 <= size && c < cols && q * (cols / size) <= c < q * (cols / size) + cols / size
    ensures owner < size && ColStart(owner, size, cols) <= c < ColEnd(owner, size, cols)
  {
    if q >= size - 1 {
      owner := size - 1;
      TailBlock(c, size, cols, q);
    } else {
      owner := q;
      MiddleBlock(c, size, cols, q);
    }
  }

  /** The blocks cover the columns without overlap: every column c < cols belongs to exactly one rank. */
  lemma ColumnOwner(c: nat, size: nat, cols: nat) returns (owner: nat)
    requires 1 <= size && c < cols
    ensures owner < size && ColStart(owner, size, cols) <= c < ColEnd(owner, size, cols)
    ensures forall r :: 0 <= r < size && ColStart(r, size, cols) <= c < ColEnd(r, size, cols) ==> r == owner
  {
    owner := OwnerOf(c, size, cols);
    forall r | 0 <= r < size && ColStart(r, size, cols) <= c < ColEnd(r, size, cols)
      ensures r == owner
    {
      if r < owner {
        ColRangesOrdered(r, owner, size, cols);
      } else if owner < r {
        ColRangesOrdered(owner, r, size, cols);
      }
    }
  }

  /**
   * One rank's first loop nest: localMin starts at INT_MAX everywhere and
   * each owned column is lowered by every row's entry.
   */
  method LocalMin(data: seq<int>, cols: nat, rows: nat, start: nat, last: nat) returns (localMin: seq<int>)
    requires start <= last <= cols && rows * cols <= |data|
    ensures |localMin| == cols
    ensures forall c :: 0 <= c < cols ==>
      localMin[c] == if start <= c < last then MinFrom(IntMax, Column(data, cols, c, rows)) else IntMax
  {
    localMin := seq(cols, _ => IntMax);
    var column := start;
    while column < last
      invariant start <= column <= last && |localMin| == cols
      invariant forall c :: 0 <= c < cols ==>
        localMin[c] == if start <= c < column then MinFrom(IntMax, Column(data, cols, c, rows)) else IntMax
    {
      ghost var col := Column(data, cols, column, rows);
      var row := 0;
      while row < rows
        invariant 0 <= row <= rows && |localMin| == cols
        invariant localMin[column] == MinFrom(IntMax, col[..row])
        invariant forall c :: 0 <= c < cols && c != column ==>
          localMin[c] == if start <= c < column then MinFrom(IntMax, Column(data, cols, c, rows)) else IntMax
      {
        var coordinate := row * cols + column;
        assert data[coordinate] == col[row];
        assert col[..row + 1][..row] == col[..row];
        localMin := localMin[column := Min(localMin[column], data[coordinate])];
        row := row + 1;
      }
      assert col[..row] == col;
      column := column + 1;
    }
  }

  /** One rank's second loop nest: for each owned column, how many entries exceed mins[column]. */
  method LocalCount(data: seq<int>, cols: nat, rows: nat, start: nat, last: nat, mins: seq<int>) returns (localCount: seq<int>)
    requires start <= last <= cols && rows * cols <= |data| && |mins| == cols
    ensures |localCount| == cols
    ensures forall c :: 0 <= c < cols ==>
      localCount[c] == if start <= c < last then CountAbove(Column(data, cols, c, rows), mins[c]) else 0
  {
    localCount := seq(cols, _ => 0);
    var column := start;
    while column < last
      invariant start <= column <= last && |localCount| == cols
      invariant forall c :: 0 <= c < cols ==>
        localCount[c] == if start <= c < column then CountAbove(Column(data, cols, c, rows), mins[c]) else 0
    {
      ghost var col := Column(data, cols, column, rows);
      var row := 0;
      while row < rows
        invariant 0 <= row <= rows && |localCount| == cols
        invariant localCount[column] == CountAbove(col[..row], mins[column])
        invariant forall c :: 0 <= c < cols && c != column ==>
          localCount[c] == if start <= c < column then CountAbove(Column(data, cols, c, rows), mins[c]) else 0
      {
        var coordinate := row * cols + column;
        assert data[coordinate] == col[row];
        assert col[..row + 1][..row] == col[..row];
        if data[coordinate] > mins[column] {
          localCount := localCount[column := localCount[column] + 1];
        }
        row := row + 1;
      }
      assert col[..row] == col;
      column := column + 1;
    }
  }

  /**
   * Entry i as rank r sends it up the tree: its own value, lowered by what
   * its children 2r + 1 and 2r + 2 sent, when they exist.
   */
  function Subtree(ins: seq<seq<int>>, n: nat, r: nat, i: nat): int
    requires Uniform(ins, n) && r < |ins| && i < n
    decreases |ins| - r
  {
    var own := ins[r][i];
    var left := if 2 * r + 1 < |ins| then Min(own, Subtree(ins, n, 2 * r + 1, i)) else own;
    if 2 * r + 2 < |ins| then Min(left, Subtree(ins, n, 2 * r + 2, i)) else left
  }

  /** Rank r's whole buffer after the upward phase. */
  function SubtreeRow(ins: seq<seq<int>>, n: nat, r: nat): (v: seq<int>)
    requires Uniform(ins, n) && r < |ins|
    ensures |v| == n && forall i :: 0 <= i < n ==> v[i] == Subtree(ins, n, r, i)
  {
    seq(n, i requires 0 <= i < n => Subtree(ins, n, r, i))
  }

  /** A subtree's value is at most its root's own and at most each child's subtree value. */
  lemma SubtreeBelowChildren(ins: seq<seq<int>>, n: nat, r: nat, i: nat)
    requires Uniform(ins, n) && r < |ins| && i < n
    ensures Subtree(ins, n, r, i) <= ins[r][i]
    ensures 2 * r + 1 < |ins| ==> Subtree(ins, n, r, i) <= Subtree(ins, n, 2 * r + 1, i)
    ensures 2 * r + 2 < |ins| ==> Subtree(ins, n, r, i) <= Subtree(ins, n, 2 * r + 2, i)
  {
  }

  /** The tree's root value is at most the subtree value of every rank k. */
  lemma {:induction false} RootBelowSubtree(ins: seq<seq<int>>, n: nat, k: nat, i: nat)
    requires Uniform(ins, n) && k < |ins| && i < n
    ensures Subtree(ins, n, 0, i) <= Subtree(ins, n, k, i)
    decreases k
  {
    if k > 0 {
      var parent := (k - 1) / 2;
      RootBelowSubtree(ins, n, parent, i);
      SubtreeBelowChildren(ins, n, parent, i);
    }
  }

  /** A subtree's value is some rank's own value, a rank of that subtree at or after r. */
  lemma {:induction false} SubtreeAttained(ins: seq<seq<int>>, n: nat, r: nat, i: nat) returns (k: nat)
    requires Uniform(ins, n) && r < |ins| && i < n
    ensures r <= k < |ins| && Subtree(ins, n, r, i) == ins[k][i]
    decreases |ins| - r
  {
    k := r;
    var best := ins[r][i];
    if 2 * r + 1 < |ins| {
      var kl := SubtreeAttained(ins, n, 2 * r + 1, i);
      if ins[kl][i] < best {
        k, best := kl, ins[kl][i];
      }
    }
    if 2 * r + 2 < |ins| {
      var kr := SubtreeAttained(ins, n, 2 * r + 2, i);
      if ins[kr][i] < best {
        k, best := kr, ins[kr][i];
      }
    }
  }

  /** The tree computes a true all-reduce: the root's value of entry i is the minimum over all ranks. */
  lemma TreeRootIsMin(ins: seq<seq<int>>, n: nat, i: nat)
    requires |ins| >= 1 && Uniform(ins, n) && i < n
    ensures IsMin(Subtree(ins, n, 0, i), Across(ins, i))
    ensures Subtree(ins, n, 0, i) == ReduceMin(ins, n)[i]
  {
    var s := Across(ins, i);
    var k := SubtreeAttained(ins, n, 0, i);
    assert s[k] == Subtree(ins, n, 0, i);
    forall j | 0 <= j < |s|
      ensures Subtree(ins, n, 0, i) <= s[j]
    {
      RootBelowSubtree(ins, n, j, i);
      SubtreeBelowChildren(ins, n, j, i);
    }
    ReduceMinIsMin(ins, n, i);
    IsMinUnique(Subtree(ins, n, 0, i), ReduceMin(ins, n)[i], s);
  }

  /**
   * Rank r's combining step: copy its own buffer, then lower every entry by
   * the buffers its children sent up.
   */
  method CombineChildren(ins: seq<seq<int>>, n: nat, up: seq<seq<int>>, r: nat) returns (out: seq<int>)
    requires Uniform(ins, n) && r < |ins| && |up| == |ins|
    requires 2 * r + 1 < |ins| ==> up[2 * r + 1] == SubtreeRow(ins, n, 2 * r + 1)
    requires 2 * r + 2 < |ins| ==> up[2 * r + 2] == SubtreeRow(ins, n, 2 * r + 2)
    ensures out == SubtreeRow(ins, n, r)
  {
    var size := |ins|;
    var leftChild, rightChild := 2 * r + 1, 2 * r + 2;
    out := ins[r];
    var i := 0;
    while i < n
      invariant 0 <= i <= n && |out| == n
      invariant forall j :: 0 <= j < i ==> out[j] == Subtree(ins, n, r, j)
      invariant forall j :: i <= j < n ==> out[j] == ins[r][j]
    {
      if leftChild < size {
        out := out[i := Min(out[i], up[leftChild][i])];
      }
      if rightChild < size {
        out := out[i := Min(out[i], up[rightChild][i])];
      }
      i := i + 1;
    }
  }

  /**
   * `my_all_reduce` over all ranks. Upward, from the highest rank down,
   * each rank combines its buffer with its children's and sends the result
   * to its parent (r - 1) / 2; downward, from rank 0 up, each rank receives
   * its parent's final buffer and passes it on. Every rank ends with the
   * element-wise minimum over all ranks.
   */
  method TreeAllReduce(ins: seq<seq<int>>, n: nat) returns (outs: seq<seq<int>>)
    requires |ins| >= 1 && Uniform(ins, n)
    ensures |outs| == |ins|
    ensures forall r :: 0 <= r < |outs| ==> outs[r] == ReduceMin(ins, n)
  {
    var size := |ins|;
    var up := ins;
    var r := size;
    while r > 0
      invariant 0 <= r <= size && |up| == size
      invariant forall k :: r <= k < size ==> up[k] == SubtreeRow(ins, n, k)
    {
      r := r - 1;
      var combined := CombineChildren(ins, n, up, r);
      up := up[r := combined];
    }
    var root := up[0];
    assert root == ReduceMin(ins, n) by {
      forall i | 0 <= i < n
        ensures root[i] == ReduceMin(ins, n)[i]
      {
        TreeRootIsMin(ins, n, i);
      }
    }
    outs := [root];
    r := 1;
    while r < size
      invariant 1 <= r <= size && |outs| == r
      invariant forall k :: 0 <= k < r ==> outs[k] == root
    {
      var parent := (r - 1) / 2;
      outs := outs + [outs[parent]];
      r := r + 1;
    }
  }

  /** Every rank's local minima, rank r scanning its own columns. */
  method AllLocalMins(data: seq<int>, cols: nat, rows: nat, size: nat) returns (mins: seq<seq<int>>)
    requires 1 <= size && rows * cols <= |data|
    ensures |mins| == size && Uniform(mins, cols)
    ensures forall r, c {:trigger mins[r][c]} :: 0 <= r < size && 0 <= c < cols ==>
      mins[r][c] == if ColStart(r, size, cols) <= c < ColEnd(r, size, cols) then ParallelMinimum(data, cols, rows, c) else IntMax
  {
    mins := [];
    var r := 0;
    while r < size
      invariant 0 <= r <= size && |mins| == r && Uniform(mins, cols)
      invariant forall k, c :: 0 <= k < r && 0 <= c < cols ==>
        mins[k][c] == if ColStart(k, size, cols) <= c < ColEnd(k, size, cols) then ParallelMinimum(data, cols, rows, c) else IntMax
    {
      var localMin := LocalMin(data, cols, rows, ColStart(r, size, cols), ColEnd(r, size, cols));
      mins := mins + [localMin];
      r := r + 1;
    }
  }

  /** Every rank's local counts against the all-reduced minima. */
  method AllLocalCounts(data: seq<int>, cols: nat, rows: nat, size: nat, minima: seq<int>) returns (counts: seq<seq<int>>)
    requires 1 <= size && rows * cols <= |data| && |minima| == cols
    ensures |counts| == size && Uniform(counts, cols)
    ensures forall r, c {:trigger counts[r][c]} :: 0 <= r < size && 0 <= c < cols ==>
      counts[r][c] == if ColStart(r, size, cols) <= c < ColEnd(r, size, cols) then CountAbove(Column(data, cols, c, rows), minima[c]) else 0
  {
    counts := [];
    var r := 0;
    while r < size
      invariant 0 <= r <= size && |counts| == r && Uniform(counts, cols)
      invariant forall k, c :: 0 <= k < r && 0 <= c < cols ==>
        counts[k][c] == if ColStart(k, size, cols) <= c < ColEnd(k, size, cols) then CountAbove(Column(data, cols, c, rows), minima[c]) else 0
    {
      var localCount := LocalCount(data, cols, rows, ColStart(r, size, cols), ColEnd(r, size, cols), minima);
      counts := counts + [localCount];
      r := r + 1;
    }
  }

  /** The minimum over ranks of the local minima is the owner's: the column's parallel minimum. */
  lemma ReducedMinima(data: seq<int>, cols: nat, rows: nat, size: nat, mins: seq<seq<int>>, c: nat)
    requires 1 <= size && rows * cols <= |data| && c < cols
    requires |mins| == size && Uniform(mins, cols)
    requires forall r :: 0 <= r < size ==>
      mins[r][c] == if ColStart(r, size, cols) <= c < ColEnd(r, size, cols) then ParallelMinimum(data, cols, rows, c) else IntMax
    ensures ReduceMin(mins, cols)[c] == ParallelMinimum(data, cols, rows, c)
  {
    var owner := ColumnOwner(c, size, cols);
    MinFromBelow(IntMax, Column(data, cols, c, rows));
    ReduceMinIsMin(mins, cols, c);
    MinSingle(ReduceMin(mins, cols)[c], Across(mins, c), owner);
  }

  /** The sum over ranks of the local counts is the owner's: the column's count. */
  lemma ReducedCounts(data: seq<int>, cols: nat, rows: nat, size: nat, minima: seq<int>, counts: seq<seq<int>>, c: nat)
    requires 1 <= size && rows * cols <= |data| && c < cols && |minima| == cols
    requires |counts| == size && Uniform(counts, cols)
    requires forall r :: 0 <= r < size ==>
      counts[r][c] == if ColStart(r, size, cols) <= c < ColEnd(r, size, cols) then CountAbove(Column(data, cols, c, rows), minima[c]) else 0
    ensures ReduceSum(counts, cols)[c] == CountAbove(Column(data, cols, c, rows), minima[c])
  {
    var owner := ColumnOwner(c, size, cols);
    SumSingle(Across(counts, c), owner);
  }

  /**
   * The parallel task's state as the root holds it. The other ranks' copies
   * of the input and of the all-reduced minima are the root's (they come
   * from broadcasts and from the all-reduce), so one object stands for all.
   */
  class MyOwnParallelTask {
    var taskData: TaskData
    var inputData: seq<int>
    var resultData: seq<int>
    var countAboveMin: seq<int>
    var columnCount: nat
    var rowCount: nat

    constructor(td: TaskData)
      ensures taskData == td && inputData == [] && resultData == [] && countAboveMin == []
      ensures columnCount == 0 && rowCount == 0
    {
      taskData := td;
      inputData, resultData, countAboveMin := [], [], [];
      columnCount, rowCount := 0, 0;
    }

    /**
     * `pre_processing`: the root reads the shape and copies the input; any
     * other rank sizes its input buffer, with the shape it holds, as zeros.
     */
    method PreProcessing(rank: nat) returns (ok: bool)
      requires rank == 0 ==> |taskData.inputsCount| >= 3 && InputFilled(taskData, 0)
      modifies this
      ensures ok && taskData == old(taskData) && resultData == old(resultData) && countAboveMin == old(countAboveMin)
      ensures rank == 0 ==>
        && columnCount == taskData.inputsCount[1] && rowCount == taskData.inputsCount[2]
        && inputData == Input(taskData, 0, taskData.inputsCount[0])
      ensures rank != 0 ==>
        columnCount == old(columnCount) && rowCount == old(rowCount) && inputData == Zeros(columnCount * rowCount)
    {
      if rank == 0 {
        var td := taskData;
        columnCount, rowCount := td.inputsCount[1], td.inputsCount[2];
        inputData := Input(td, 0, td.inputsCount[0]);
      } else {
        inputData := Zeros(columnCount * rowCount);
      }
      ok := true;
    }

    /**
     * `run` over a world of `size` ranks: broadcast the shape and the
     * rows x cols input, compute every rank's local minima, all-reduce them
     * through the tree, count above the minima, and sum the counts on the
     * root.
     */
    method Run(size: nat) returns (ok: bool)
      requires 1 <= size && rowCount * columnCount <= |inputData|
      modifies this
      ensures ok && taskData == old(taskData) && inputData == old(inputData)
      ensures columnCount == old(columnCount) && rowCount == old(rowCount)
      ensures |resultData| == columnCount && |countAboveMin| == columnCount
      ensures forall c :: 0 <= c < columnCount ==> resultData[c] == ParallelMinimum(inputData, columnCount, rowCount, c)
      ensures forall c :: 0 <= c < columnCount ==>
        countAboveMin[c] == CountAbove(Column(inputData, columnCount, c, rowCount), resultData[c])
    {
      var data, cols, rows := inputData, columnCount, rowCount;
      var localMins := AllLocalMins(data, cols, rows, size);
      var reduced := TreeAllReduce(localMins, cols);
      var minima := reduced[0];
      forall c | 0 <= c < cols
        ensures minima[c] == ParallelMinimum(data, cols, rows, c)
      {
        ReducedMinima(data, cols, rows, size, localMins, c);
      }
      var localCounts := AllLocalCounts(data, cols, rows, size, minima);
      var total := ReduceSum(localCounts, cols);
      forall c | 0 <= c < cols
        ensures total[c] == CountAbove(Column(data, cols, c, rows), minima[c])
      {
        ReducedCounts(data, cols, rows, size, minima, localCounts, c);
      }
      resultData, countAboveMin := minima, total;
      ok := true;
    }

    /** `post_processing`: the root writes each column's count into the output buffer; other ranks do nothing. */
    method PostProcessing(rank: nat) returns (ok: bool)
      requires rank == 0 ==> |taskData.outputs| >= 1 && taskData.outputs[0].Data?
      requires rank == 0 ==> columnCount <= |taskData.outputs[0].items| && columnCount <= |countAboveMin|
      modifies this
      ensures ok && countAboveMin == old(countAboveMin) && columnCount == old(columnCount)
      ensures inputData == old(inputData) && resultData == old(resultData) && rowCount == old(rowCount)
      ensures rank != 0 ==> taskData == old(taskData)
      ensures rank == 0 ==>
        taskData == old(taskData).(outputs := [Data(countAboveMin[..columnCount] + old(taskData).outputs[0].items[columnCount..])] + old(taskData).outputs[1..])
    {
      if rank == 0 {
        var td := taskData;
        var out := td.outputs[0].items;
        taskData := td.(outputs := [Data(countAboveMin[..columnCount] + out[columnCount..])] + td.outputs[1..]);
      }
      ok := true;
    }
  }
}
