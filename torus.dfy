/**
 * mezhuev_m_lattice_torus: every rank of a world of size = d * d ranks sits
 * on a d x d torus, exchanges its input buffer with its left, right, up and
 * down neighbours, and writes the four buffers it receives, in that order,
 * into its output buffer. Message passing is a parameter: `sent[r]` is the
 * buffer rank r sends, so the world has |sent| ranks.
 */
module Torus {
  import opened Task
  import ColumnMin
  import Dense

  // ---------------------------------------------------------------------------
  // The grid dimension: static_cast<int>(std::sqrt(size)) as an integer root.
  // ---------------------------------------------------------------------------

  /** The integer square root: the largest r with r * r <= n. */
  function Isqrt(n: nat): (r: nat)
    ensures r * r <= n < (r + 1) * (r + 1)
  {
    if n == 0 then 0
    else
      var s := Isqrt(n - 1);
      if (s + 1) * (s + 1) <= n then
        assert (s + 2) * (s + 2) == (s + 1) * (s + 1) + 2 * s + 3;
        s + 1
      else s
  }

  function Square(d: nat): nat
  {
    d * d
  }

  lemma SquareMono(a: nat, b: nat)
    requires a <= b
    ensures a * a <= b * b
  {
    Dense.MulMono(a, b, a);
    Dense.MulMono(a, b, b);
  }

  /** The bounds of Isqrt pin it down: any r with r * r <= n < (r + 1) * (r + 1) is Isqrt(n). */
  lemma IsqrtUnique(n: nat, r: nat)
    requires r * r <= n < (r + 1) * (r + 1)
    ensures Isqrt(n) == r
  {
    var s := Isqrt(n);
    if s < r {
      SquareMono(s + 1, r);
    } else if r < s {
      SquareMono(r + 1, s);
    }
  }

  /** The validation's test `grid_dim * grid_dim == size`. */
  predicate IsSquare(n: nat)
  {
    Isqrt(n) * Isqrt(n) == n
  }

  /** The test accepts exactly the perfect squares. */
  lemma SquareIff(n: nat)
    ensures IsSquare(n) <==> exists d: nat :: Square(d) == n
  {
    if IsSquare(n) {
      assert Square(Isqrt(n)) == n;
    }
    if exists d: nat :: Square(d) == n {
      var d: nat :| Square(d) == n;
      assert (d + 1) * (d + 1) == d * d + 2 * d + 1;
      IsqrtUnique(n, d);
    }
  }

  // ---------------------------------------------------------------------------
  // compute_neighbors
  // ---------------------------------------------------------------------------

  datatype Neighbours = Neighbours(left: int, right: int, up: int, down: int)

  /** Rank = x + y * d sits in column x = rank % d and row y = rank / d; its neighbours wrap around. */
  function ComputeNeighbours(rank: int, d: nat): Neighbours
    requires d >= 1
  {
    var x := rank % d;
    var y := rank / d;
    Neighbours((x - 1 + d) % d + y * d, (x + 1) % d + y * d, x + ((y - 1 + d) % d) * d, x + ((y + 1) % d) * d)
  }

  /** The ranks a rank exchanges with, in the order of the loop: left, right, up, down. */
  function Around(rank: nat, size: nat): (nbs: seq<int>)
    requires size >= 1
    ensures |nbs| == 4
  {
    var n := ComputeNeighbours(rank, Isqrt(size));
    [n.left, n.right, n.up, n.down]
  }

  /** Column a and row b of a d-wide grid name the rank a + b * d, and division recovers them. */
  lemma Decompose(a: int, b: int, d: int)
    requires d > 0 && 0 <= a < d
    ensures (a + b * d) % d == a && (a + b * d) / d == b
  {
    var n := a + b * d;
    var q, r := n / d, n % d;
    Dense.MulDistrib(b, -q, d);
    assert (b - q) * d == r - a;
    if b - q >= 1 {
      Dense.MulMono(1, b - q, d);
    } else if b - q <= -1 {
      Dense.MulMono(1, q - b, d);
      Dense.MulDistrib(q, -b, d);
    }
  }

  /** A cell of the d x d grid is a rank in [0, d * d). */
  lemma InGrid(a: int, b: int, d: int)
    requires 0 <= a < d && 0 <= b < d
    ensures 0 <= a + b * d < d * d
  {
    Dense.MulMono(b + 1, d, d);
  }

  /** Every rank below d * d has a column and a row in [0, d). */
  lemma Position(rank: nat, d: nat)
    requires d >= 1 && rank < d * d
    ensures 0 <= rank % d < d && 0 <= rank / d < d && rank == rank % d + (rank / d) * d
  {
    if rank / d >= d {
      Dense.MulMono(d, rank / d, d);
    }
  }

  /** Stepping back then forward, or forward then back, along a ring of d cells returns to x. */
  lemma RingStep(x: int, d: int)
    requires 0 <= x < d
    ensures 0 <= (x - 1 + d) % d < d && 0 <= (x + 1) % d < d
    ensures ((x - 1 + d) % d + 1) % d == x && ((x + 1) % d - 1 + d) % d == x
  {
    if x == 0 {
      Decompose(d - 1, 0, d);
      Decompose(0, 1, d);
    } else {
      Decompose(x - 1, 1, d);
      Decompose(x, 0, d);
    }
    if x == d - 1 {
      Decompose(0, 1, d);
      Decompose(d - 1, 0, d);
    } else {
      Decompose(x + 1, 0, d);
      Decompose(x, 1, d);
    }
  }

  /** For a rank of the d x d grid all four neighbours are ranks of the grid. */
  lemma NeighboursInRange(rank: nat, d: nat)
    requires d >= 1 && rank < d * d
    ensures var n := ComputeNeighbours(rank, d);
      && 0 <= n.left < d * d && 0 <= n.right < d * d
      && 0 <= n.up < d * d && 0 <= n.down < d * d
  {
    var x, y := rank % d, rank / d;
    Position(rank, d);
    RingStep(x, d);
    RingStep(y, d);
    InGrid((x - 1 + d) % d, y, d);
    InGrid((x + 1) % d, y, d);
    InGrid(x, (y - 1 + d) % d, d);
    InGrid(x, (y + 1) % d, d);
  }

  /**
   * Left and right stay in the rank's row y and move its column one step
   * around the ring; up and down stay in its column x and move its row.
   */
  lemma NeighboursKeepLines(rank: nat, d: nat)
    requires d >= 1 && rank < d * d
    ensures var n := ComputeNeighbours(rank, d);
      var x, y := rank % d, rank / d;
      && n.left / d == y && n.left % d == (x - 1 + d) % d
      && n.right / d == y && n.right % d == (x + 1) % d
      && n.up % d == x && n.up / d == (y - 1 + d) % d
      && n.down % d == x && n.down / d == (y + 1) % d
  {
    var x, y := rank % d, rank / d;
    Position(rank, d);
    RingStep(x, d);
    RingStep(y, d);
    Decompose((x - 1 + d) % d, y, d);
    Decompose((x + 1) % d, y, d);
    Decompose(x, (y - 1 + d) % d, d);
    Decompose(x, (y + 1) % d, d);
  }

  /** One step back along a ring of d cells. */
  function Pred(x: int, d: int): int
    requires d > 0
  {
    (x - 1 + d) % d
  }

  /** One step forward along a ring of d cells. */
  function Succ(x: int, d: int): int
    requires d > 0
  {
    (x + 1) % d
  }

  /** The neighbours of the cell in column x and row y, as cells. */
  lemma NeighbourCells(x: int, y: int, d: nat)
    requires d >= 1 && 0 <= x < d && 0 <= y < d
    ensures ComputeNeighbours(x + y * d, d)
      == Neighbours(Pred(x, d) + y * d, Succ(x, d) + y * d, x + Pred(y, d) * d, x + Succ(y, d) * d)
  {
    Decompose(x, y, d);
  }

  /** Along a row: the left neighbour of the right neighbour, and the right neighbour of the left one, is the cell itself. */
  lemma RowInverse(x: int, y: int, d: nat)
    requires d >= 1 && 0 <= x < d && 0 <= y < d
    ensures ComputeNeighbours(Succ(x, d) + y * d, d).left == x + y * d
    ensures ComputeNeighbours(Pred(x, d) + y * d, d).right == x + y * d
  {
    RingStep(x, d);
    NeighbourCells(Succ(x, d), y, d);
    NeighbourCells(Pred(x, d), y, d);
  }

  /** Along a column: up of down, and down of up, is the cell itself. */
  lemma ColumnInverse(x: int, y: int, d: nat)
    requires d >= 1 && 0 <= x < d && 0 <= y < d
    ensures ComputeNeighbours(x + Succ(y, d) * d, d).up == x + y * d
    ensures ComputeNeighbours(x + Pred(y, d) * d, d).down == x + y * d
  {
    RingStep(y, d);
    NeighbourCells(x, Succ(y, d), d);
    NeighbourCells(x, Pred(y, d), d);
  }

  /** The torus wraps both ways: left undoes right, right undoes left, up undoes down, down undoes up. */
  lemma NeighboursInverse(rank: nat, d: nat)
    requires d >= 1 && rank < d * d
    ensures var n := ComputeNeighbours(rank, d);
      && ComputeNeighbours(n.right, d).left == rank && ComputeNeighbours(n.left, d).right == rank
      && ComputeNeighbours(n.down, d).up == rank && ComputeNeighbours(n.up, d).down == rank
  {
    var x, y := rank % d, rank / d;
    Position(rank, d);
    RingStep(x, d);
    RingStep(y, d);
    NeighbourCells(x, y, d);
    var n := ComputeNeighbours(rank, d);
    assert n == ComputeNeighbours(x + y * d, d);
    assert n.right == Succ(x, d) + y * d && n.left == Pred(x, d) + y * d;
    assert n.down == x + Succ(y, d) * d && n.up == x + Pred(y, d) * d;
    RowInverse(x, y, d);
    ColumnInverse(x, y, d);
  }

  // ---------------------------------------------------------------------------
  // The exchange in run
  // ---------------------------------------------------------------------------

  predicate InRange(nbs: seq<int>, size: nat)
  {
    forall k :: 0 <= k < |nbs| ==> 0 <= nbs[k] < size
  }

  /** combined_buffer: the buffers the ranks nbs sent, appended in the order of nbs. */
  function Combined(sent: seq<seq<int>>, nbs: seq<int>): seq<int>
    requires InRange(nbs, |sent|)
    decreases |nbs|
  {
    if |nbs| == 0 then [] else Combined(sent, nbs[..|nbs| - 1]) + sent[nbs[|nbs| - 1]]
  }

  /** For four neighbours the combined buffer is theirs, left first and down last. */
  lemma CombinedOrder(sent: seq<seq<int>>, nbs: seq<int>)
    requires |nbs| == 4 && InRange(nbs, |sent|)
    ensures Combined(sent, nbs) == sent[nbs[0]] + sent[nbs[1]] + sent[nbs[2]] + sent[nbs[3]]
  {
    assert nbs[..1][..0] == [];
    assert Combined(sent, nbs[..1]) == sent[nbs[0]];
    assert nbs[..2][..1] == nbs[..1];
    assert Combined(sent, nbs[..2]) == sent[nbs[0]] + sent[nbs[1]];
    assert nbs[..3][..2] == nbs[..2];
    assert Combined(sent, nbs[..3]) == sent[nbs[0]] + sent[nbs[1]] + sent[nbs[2]];
    assert nbs[..3] == nbs[..|nbs| - 1];
  }

  /** When every rank sends n elements, k neighbours deliver k * n elements. */
  lemma {:induction false} CombinedUniform(sent: seq<seq<int>>, nbs: seq<int>, n: nat)
    requires InRange(nbs, |sent|) && forall r :: 0 <= r < |sent| ==> |sent[r]| == n
    ensures |Combined(sent, nbs)| == |nbs| * n
    decreases |nbs|
  {
    if |nbs| > 0 {
      CombinedUniform(sent, nbs[..|nbs| - 1], n);
      Dense.MulDistrib(|nbs| - 1, 1, n);
    }
  }

  /**
   * The send/recv loop: a neighbour outside the world makes the exchange
   * throw and `run` return false; otherwise every received buffer is
   * appended to the combined buffer.
   */
  method Exchange(sent: seq<seq<int>>, nbs: seq<int>) returns (ok: bool, combined: seq<int>)
    ensures ok <==> InRange(nbs, |sent|)
    ensures ok ==> combined == Combined(sent, nbs)
  {
    combined := [];
    var i := 0;
    while i < |nbs|
      invariant 0 <= i <= |nbs|
      invariant InRange(nbs[..i], |sent|)
      invariant combined == Combined(sent, nbs[..i])
    {
      var nb := nbs[i];
      if nb < 0 || nb >= |sent| {
        return false, combined;
      }
      assert nbs[..i + 1][..i] == nbs[..i];
      combined := combined + sent[nb];
      i := i + 1;
    }
    assert nbs[..i] == nbs;
    ok := true;
  }

  // ---------------------------------------------------------------------------
  // validation, run and post_processing
  // ---------------------------------------------------------------------------

  /** Every counted buffer is allocated and counts at least one element. */
  predicate Filled(bufs: seq<Buffer>, counts: seq<nat>)
    requires |counts| <= |bufs|
  {
    forall i :: 0 <= i < |counts| ==> bufs[i].Data? && counts[i] > 0
  }

  /**
   * One of validation's two loops: whether every counted buffer is
   * allocated with a positive count, and the total of the counts.
   */
  method Scan(bufs: seq<Buffer>, counts: seq<nat>) returns (filled: bool, total: int)
    requires |counts| <= |bufs|
    ensures filled == Filled(bufs, counts) && total == ColumnMin.Sum(counts)
  {
    filled, total := true, 0;
    var i := 0;
    while i < |counts|
      invariant 0 <= i <= |counts|
      invariant filled == forall k :: 0 <= k < i ==> bufs[k].Data? && counts[k] > 0
      invariant total == ColumnMin.Sum(counts[..i])
    {
      if bufs[i].Null? || counts[i] <= 0 {
        filled := false;
      }
      assert counts[..i + 1][..i] == counts[..i];
      total := total + counts[i];
      i := i + 1;
    }
    assert counts[..i] == counts;
  }

  /** There is a buffer behind every count. */
  predicate Listed(td: TaskData)
  {
    |td.inputsCount| <= |td.inputs| && |td.outputsCount| <= |td.outputs|
  }

  /** The root's verdict; every other rank reports true, so the all-reduced conjunction is this. */
  predicate TorusValid(td: TaskData, size: nat)
    requires Listed(td)
  {
    && |td.inputs| > 0 && |td.inputsCount| > 0 && |td.outputs| > 0 && |td.outputsCount| > 0
    && Filled(td.inputs, td.inputsCount) && Filled(td.outputs, td.outputsCount)
    && ColumnMin.Sum(td.inputsCount) == ColumnMin.Sum(td.outputsCount)
    && IsSquare(size)
  }

  /** The first output buffer is allocated and holds outputs_count[0] elements; input 0 holds inputs_count[0]. */
  predicate Sized(td: TaskData)
  {
    && |td.outputs| >= 1 && |td.outputsCount| >= 1 && td.outputs[0].Data?
    && td.outputsCount[0] <= |td.outputs[0].items| && InputFilled(td, 0)
  }

  /** The task data after copying prefix over the start of the first output buffer. */
  function Written(td: TaskData, prefix: seq<int>): (t: TaskData)
    requires |td.outputs| >= 1 && td.outputs[0].Data? && |prefix| <= |td.outputs[0].items|
    ensures t.inputs == td.inputs && t.inputsCount == td.inputsCount && t.outputsCount == td.outputsCount
    ensures |t.outputs| == |td.outputs| && t.outputs[1..] == td.outputs[1..]
    ensures t.outputs[0].Data? && |t.outputs[0].items| == |td.outputs[0].items|
    ensures t.outputs[0].items[..|prefix|] == prefix
    ensures t.outputs[0].items[|prefix|..] == td.outputs[0].items[|prefix|..]
  {
    var out := td.outputs[0].items;
    td.(outputs := [Data(prefix + out[|prefix|..])] + td.outputs[1..])
  }

  /** run's verdict: every neighbour is a rank and the first output buffer can take all they sent. */
  predicate RunAccepts(td: TaskData, rank: nat, sent: seq<seq<int>>)
    requires |td.outputsCount| >= 1 && |sent| >= 1
  {
    var nbs := Around(rank, |sent|);
    InRange(nbs, |sent|) && |Combined(sent, nbs)| <= td.outputsCount[0]
  }

  /** On a square world with equal-length buffers, run succeeds iff the output counts four buffers. */
  lemma RunAcceptsIff(td: TaskData, rank: nat, sent: seq<seq<int>>, n: nat)
    requires |td.outputsCount| >= 1 && IsSquare(|sent|) && rank < |sent|
    requires forall r :: 0 <= r < |sent| ==> |sent[r]| == n
    ensures RunAccepts(td, rank, sent) <==> 4 * n <= td.outputsCount[0]
  {
    var nbs := Around(rank, |sent|);
    NeighboursInRange(rank, Isqrt(|sent|));
    CombinedUniform(sent, nbs, n);
  }

  /** Every allocated output buffer holds the elements its count promises. */
  predicate OutputsSized(td: TaskData)
  {
    && |td.outputs| <= |td.outputsCount|
    && forall i :: 0 <= i < |td.outputs| && td.outputs[i].Data? ==> td.outputsCount[i] <= |td.outputs[i].items|
  }

  /** Output buffer i is allocated and none of its counted elements is 0. */
  predicate NonZeroBuffer(td: TaskData, i: nat)
    requires OutputsSized(td) && i < |td.outputs|
  {
    td.outputs[i].Data? && forall j :: 0 <= j < td.outputsCount[i] ==> td.outputs[i].items[j] != 0
  }

  /** post_processing's verdict. */
  predicate AllNonZero(td: TaskData)
    requires OutputsSized(td)
  {
    forall i :: 0 <= i < |td.outputs| ==> NonZeroBuffer(td, i)
  }

  /** The clipped copy of the corrected run: as much of the combined buffer as an output of n elements takes. */
  function Clipped(combined: seq<int>, n: nat): (c: seq<int>)
    ensures |c| <= n && |c| <= |combined| && c == combined[..|c|]
    ensures |c| == n || c == combined
  {
    if n < |combined| then combined[..n] else combined
  }

  /**
   * As written, validation and run contradict each other for one input and
   * one output buffer: validation demands equal counts, run demands an
   * output four times the input, so a validated task whose ranks all send
   * inputs_count[0] > 0 elements always fails in run.
   */
  lemma ValidatedRunFails(td: TaskData, rank: nat, sent: seq<seq<int>>)
    requires Listed(td) && TorusValid(td, |sent|) && |td.inputsCount| == 1 && |td.outputsCount| == 1
    requires rank < |sent| && forall r :: 0 <= r < |sent| ==> |sent[r]| == td.inputsCount[0]
    ensures !RunAccepts(td, rank, sent)
  {
    assert td.inputsCount == [] + [td.inputsCount[0]] && td.outputsCount == [] + [td.outputsCount[0]];
    assert td.inputsCount[..0] == [] && td.outputsCount[..0] == [];
    RunAcceptsIff(td, rank, sent, td.inputsCount[0]);
  }

  /**
   * With the corrected run, a validated single-buffer task whose ranks send
   * non-zero data passes run and post_processing: the output is filled
   * completely from the neighbours' data.
   */
  lemma CorrectedLifecycle(td: TaskData, rank: nat, sent: seq<seq<int>>)
    requires Listed(td) && TorusValid(td, |sent|) && |td.inputsCount| == 1 && |td.outputsCount| == 1
    requires |td.outputs| == 1 && td.outputs[0].Data? && td.outputsCount[0] <= |td.outputs[0].items|
    requires rank < |sent|
    requires forall r :: 0 <= r < |sent| ==> |sent[r]| == td.inputsCount[0]
    requires forall r, j :: 0 <= r < |sent| && 0 <= j < |sent[r]| ==> sent[r][j] != 0
    ensures InRange(Around(rank, |sent|), |sent|)
    ensures var t := Written(td, Clipped(Combined(sent, Around(rank, |sent|)), td.outputsCount[0])); OutputsSized(t) && AllNonZero(t)
  {
    var nbs := Around(rank, |sent|);
    NeighboursInRange(rank, Isqrt(|sent|));
    assert td.inputsCount[..0] == [] && td.outputsCount[..0] == [];
    var n := td.inputsCount[0];
    CombinedUniform(sent, nbs, n);
    assert ColumnMin.Sum(td.inputsCount) == n && ColumnMin.Sum(td.outputsCount) == td.outputsCount[0];
    var combined := Combined(sent, nbs);
    assert |combined| == 4 * n;
    CombinedNonZero(sent, nbs);
    var c := Clipped(combined, n);
    assert |c| == n && c == combined[..n];
    forall j | 0 <= j < n
      ensures c[j] != 0
    {
      assert c[j] == combined[j];
    }
    WrittenNonZero(td, c);
  }

  /** Buffers without a 0 combine into a buffer without a 0. */
  lemma {:induction false} CombinedNonZero(sent: seq<seq<int>>, nbs: seq<int>)
    requires InRange(nbs, |sent|)
    requires forall r, j :: 0 <= r < |sent| && 0 <= j < |sent[r]| ==> sent[r][j] != 0
    ensures forall j :: 0 <= j < |Combined(sent, nbs)| ==> Combined(sent, nbs)[j] != 0
    decreases |nbs|
  {
    if |nbs| > 0 {
      CombinedNonZero(sent, nbs[..|nbs| - 1]);
    }
  }

  /** Filling the whole of a single output buffer with non-zero elements passes post_processing. */
  lemma WrittenNonZero(td: TaskData, c: seq<int>)
    requires |td.outputs| == 1 && |td.outputsCount| == 1 && td.outputs[0].Data?
    requires |c| == td.outputsCount[0] <= |td.outputs[0].items|
    requires forall j :: 0 <= j < |c| ==> c[j] != 0
    ensures OutputsSized(Written(td, c)) && AllNonZero(Written(td, c))
  {
    var t := Written(td, c);
    forall j | 0 <= j < |c|
      ensures t.outputs[0].items[j] != 0
    {
      assert t.outputs[0].items[j] == t.outputs[0].items[..|c|][j];
    }
    assert NonZeroBuffer(t, 0);
  }

  /** The examples of the test suite, with uint8 buffers as integers. */
  lemma ValidationExamples()
    ensures TorusValid(TaskData([Data([9, 10, 11, 12])], [4], [Data([0, 0, 0, 0])], [4]), 4)
    ensures !TorusValid(TaskData([Data([9, 10, 11, 12])], [4], [Data([0, 0])], [2]), 4)
    ensures !TorusValid(TaskData([Data([9, 10, 11, 12])], [4], [Data([0, 0, 0, 0])], [4]), 6)
    ensures !TorusValid(TaskData([Data([])], [0], [Data([0, 0, 0, 0])], [4]), 4)
  {
    IsqrtUnique(4, 2);
    IsqrtUnique(6, 2);
    var four: seq<nat> := [4];
    assert four[..0] == [];
    var two: seq<nat> := [2];
    assert two[..0] == [];
  }

  /** The task object of one rank. */
  class GridTorusTopologyParallel {
    var taskData: TaskData

    constructor(td: TaskData)
      ensures taskData == td
    {
      taskData := td;
    }

    method PreProcessing() returns (ok: bool)
      ensures ok
    {
      ok := true;
    }

    /**
     * `validation` on the root of a world of `size` ranks: the four lists
     * are non-empty, every counted buffer is allocated and non-empty, the
     * input and output totals agree and size is a perfect square.
     */
    method Validation(size: nat) returns (ok: bool)
      requires Listed(taskData)
      ensures ok == TorusValid(taskData, size)
    {
      var td := taskData;
      var valid := |td.inputs| > 0 && |td.inputsCount| > 0 && |td.outputs| > 0 && |td.outputsCount| > 0;
      var inputFilled, totalIn := Scan(td.inputs, td.inputsCount);
      var outputFilled, totalOut := Scan(td.outputs, td.outputsCount);
      var gridDim := Isqrt(size);
      ok := valid && inputFilled && outputFilled && totalIn == totalOut && gridDim * gridDim == size;
    }

    /**
     * `run` on `rank` of a world where rank r sends `sent[r]`: exchange
     * with the four neighbours, then copy the combined buffer into the
     * first output buffer if its count is large enough.
     */
    method Run(rank: nat, sent: seq<seq<int>>) returns (ok: bool)
      requires rank < |sent| && Sized(taskData)
      requires sent[rank] == Input(taskData, 0, taskData.inputsCount[0])
      modifies this
      ensures ok == RunAccepts(old(taskData), rank, sent)
      ensures ok ==> taskData == Written(old(taskData), Combined(sent, Around(rank, |sent|)))
      ensures !ok ==> taskData == old(taskData)
    {
      var nbs := Around(rank, |sent|);
      var exchanged, combined := Exchange(sent, nbs);
      if !exchanged {
        return false;
      }
      if taskData.outputsCount[0] >= |combined| {
        taskData := Written(taskData, combined);
        ok := true;
      } else {
        ok := false;
      }
    }

    /**
     * The corrected `run`: the exchange is the same, and the first output
     * buffer receives as much of the combined buffer as it counts.
     */
    method CorrectedRun(rank: nat, sent: seq<seq<int>>) returns (ok: bool)
      requires rank < |sent| && Sized(taskData)
      requires sent[rank] == Input(taskData, 0, taskData.inputsCount[0])
      modifies this
      ensures ok == InRange(Around(rank, |sent|), |sent|)
      ensures ok ==> taskData == Written(old(taskData), Clipped(Combined(sent, Around(rank, |sent|)), old(taskData).outputsCount[0]))
      ensures !ok ==> taskData == old(taskData)
    {
      var nbs := Around(rank, |sent|);
      var exchanged, combined := Exchange(sent, nbs);
      if !exchanged {
        return false;
      }
      taskData := Written(taskData, Clipped(combined, taskData.outputsCount[0]));
      ok := true;
    }

    /** `post_processing`: false when an output buffer is missing or one of its counted elements is 0. */
    method PostProcessing() returns (ok: bool)
      requires OutputsSized(taskData)
      ensures ok == AllNonZero(taskData)
    {
      var td := taskData;
      var i := 0;
      while i < |td.outputs|
        invariant 0 <= i <= |td.outputs|
        invariant forall k :: 0 <= k < i ==> NonZeroBuffer(td, k)
      {
        if td.outputs[i].Null? {
          assert !NonZeroBuffer(td, i);
          return false;
        }
        var j := 0;
        while j < td.outputsCount[i]
          invariant 0 <= j <= td.outputsCount[i]
          invariant forall m :: 0 <= m < j ==> td.outputs[i].items[m] != 0
        {
          if td.outputs[i].items[j] == 0 {
            assert !NonZeroBuffer(td, i);
            return false;
          }
          j := j + 1;
        }
        i := i + 1;
      }
      ok := true;
    }
  }
}
