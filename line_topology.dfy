/**
 * lavrentyev_a_line_topology: the ranks start, start + 1, ..., end form a
 * line. The start rank sends its data and a path record to the next rank;
 * every rank after it receives both from its predecessor, marks itself in
 * the path and forwards them, until the end rank keeps what it received
 * and publishes it. The parameters sit in inputs_count: start in entry 0,
 * end in entry 1 and the number of elements in entry 2.
 */
module LineTopology {
  import opened Task

  /** What one rank sends the next: data_arr and path_arr. */
  datatype Message = Message(data: seq<int>, path: seq<int>)

  /** What a rank's run sends on, if anything. */
  datatype Outgoing = Nothing | Send(msg: Message)

  /** The parameters as the task reads them, each an unsigned count read into an `int`. */
  function StartRank(td: TaskData): int
    requires |td.inputsCount| >= 3
  {
    ToInt32(td.inputsCount[0])
  }

  function EndRank(td: TaskData): int
    requires |td.inputsCount| >= 3
  {
    ToInt32(td.inputsCount[1])
  }

  function ElementCount(td: TaskData): int
    requires |td.inputsCount| >= 3
  {
    ToInt32(td.inputsCount[2])
  }

  /**
   * `validation` on `rank` of a world of `size` ranks: three parameters,
   * start and end are ranks, at least one element, an input buffer on the
   * start rank and two output buffers on the end rank. A missing second
   * output buffer counts as a null one.
   */
  predicate LineValid(td: TaskData, rank: nat, size: nat)
  {
    && |td.inputsCount| >= 3
    && 0 <= StartRank(td) < size && 0 <= EndRank(td) < size && ElementCount(td) > 0
    && (rank == StartRank(td) ==> |td.inputs| > 0 && td.inputs[0].Data?)
    && (rank == EndRank(td) ==> |td.outputs| >= 2 && td.outputs[0].Data? && td.outputs[1].Data?)
  }

  /** The test suite's validation cases on a world of four ranks. */
  lemma ValidationExamples(inputs: seq<Buffer>, outputs: seq<Buffer>)
    requires |inputs| >= 1 && inputs[0].Data? && |outputs| >= 2 && outputs[0].Data? && outputs[1].Data?
    ensures LineValid(TaskData(inputs, [0, 3, 10000], outputs, [10000, 4]), 0, 4)
    ensures LineValid(TaskData(inputs, [0, 3, 10000], outputs, [10000, 4]), 3, 4)
    ensures !LineValid(TaskData(inputs, [4, 3, 100], outputs, []), 1, 4)
    ensures !LineValid(TaskData(inputs, [0, 4, 100], outputs, []), 1, 4)
    ensures !LineValid(TaskData(inputs, [0, 3, 0x1_0000_0000 - 50], outputs, []), 1, 4)
    ensures !LineValid(TaskData([], [0, 3, 1000], outputs, []), 0, 4)
    ensures LineValid(TaskData([], [0, 3, 1000], [], []), 1, 4)
    ensures !LineValid(TaskData(inputs, [0, 3, 1000], [], []), 3, 4)
    ensures !LineValid(TaskData(inputs, [100], outputs, []), 0, 4)
  {
    assert ToInt32(0x1_0000_0000 - 50) == -50;
  }

  /** path_arr as the start rank fills it: its own rank first, -1 everywhere else. */
  function Initial(size: nat, start: int): (p: seq<int>)
    requires size >= 1
  {
    seq(size, i requires 0 <= i < size => if i == 0 then start else -1)
  }

  /** The loop that fills path_arr with -1, then the start rank's entry 0. */
  method InitialPath(size: nat, start: int) returns (p: seq<int>)
    requires size >= 1
    ensures |p| == size && p[0] == start
    ensures forall i :: 1 <= i < size ==> p[i] == -1
  {
    var arr := new int[size];
    for i := 0 to size
      invariant forall k :: 0 <= k < i ==> arr[k] == -1
    {
      arr[i] := -1;
    }
    arr[0] := start;
    p := arr[..];
  }

  /**
   * The message leaving rank k, for start <= k: the start rank's data and
   * path, with every rank after it marking path[j] = j as it passes by.
   */
  function Chain(input: seq<int>, size: nat, start: nat, k: nat): (m: Message)
    requires start <= k < size
    ensures |m.path| == size
    decreases k - start
  {
    if k == start then Message(input, Initial(size, start))
    else
      var prev := Chain(input, size, start, k - 1);
      Message(prev.data, prev.path[k := k])
  }

  /**
   * The relayed message: the data is the start rank's, unchanged; the path
   * holds start at 0, j at every j of start + 1 .. k and -1 elsewhere.
   */
  lemma {:induction false} ChainShape(input: seq<int>, size: nat, start: nat, k: nat)
    requires start <= k < size
    ensures Chain(input, size, start, k).data == input
    ensures forall i :: 0 <= i < size ==>
      Chain(input, size, start, k).path[i] == if i == 0 then start else if start < i <= k then i else -1
    decreases k - start
  {
    if k > start {
      ChainShape(input, size, start, k - 1);
    }
  }

  /** From rank 0 the path reads 0, 1, ..., k, the sequence of ranks the data went through. */
  lemma ChainFromZero(input: seq<int>, size: nat, k: nat)
    requires k < size
    ensures forall i :: 0 <= i <= k ==> Chain(input, size, 0, k).path[i] == i
    ensures forall i :: k < i < size ==> Chain(input, size, 0, k).path[i] == -1
  {
    ChainShape(input, size, 0, k);
  }

  /**
   * From a start rank above 0 the as-written path is not the sequence of
   * ranks: entry 1 stays -1 where start + 1 belongs.
   */
  lemma ChainMissesSecondRank(input: seq<int>, size: nat, start: nat, k: nat)
    requires 1 <= start < k < size
    ensures Chain(input, size, start, k).path[1] == -1 != start + 1
  {
    ChainShape(input, size, start, k);
  }

  /** Three ranks, start 1, end 2: the path reads 1, -1, 2 instead of 1, 2. */
  lemma ChainExample()
    ensures Chain([7], 3, 1, 2).path == [1, -1, 2]
  {
    ChainShape([7], 3, 1, 2);
  }

  /** The corrected relay: rank k marks entry k - start, so the path lists the ranks from start on. */
  function CorrectedChain(input: seq<int>, size: nat, start: nat, k: nat): (m: Message)
    requires start <= k < size
    ensures |m.path| == size
    decreases k - start
  {
    if k == start then Message(input, Initial(size, start))
    else
      var prev := CorrectedChain(input, size, start, k - 1);
      Message(prev.data, prev.path[k - start := k])
  }

  /** With the correction the path reads start, start + 1, ..., k, then -1, for every start. */
  lemma {:induction false} CorrectedChainShape(input: seq<int>, size: nat, start: nat, k: nat)
    requires start <= k < size
    ensures CorrectedChain(input, size, start, k).data == input
    ensures forall i :: 0 <= i <= k - start ==> CorrectedChain(input, size, start, k).path[i] == start + i
    ensures forall i :: k - start < i < size ==> CorrectedChain(input, size, start, k).path[i] == -1
    decreases k - start
  {
    if k > start {
      CorrectedChainShape(input, size, start, k - 1);
    }
  }

  /** From rank 0 the correction changes nothing. */
  lemma CorrectedFromZero(input: seq<int>, size: nat, k: nat)
    requires k < size
    ensures CorrectedChain(input, size, 0, k) == Chain(input, size, 0, k)
  {
    ChainFromZero(input, size, k);
    CorrectedChainShape(input, size, 0, k);
  }

  /** buf with s copied over its start; a null buffer is left alone. */
  function Copied(buf: Buffer, s: seq<int>): (b: Buffer)
    requires buf.Data? ==> |s| <= |buf.items|
    ensures b.Null? == buf.Null?
    ensures b.Data? ==> |b.items| == |buf.items| && b.items[..|s|] == s && b.items[|s|..] == buf.items[|s|..]
  {
    if buf.Null? then Null else Data(s + buf.items[|s|..])
  }

  /** The task object of one rank; data and path are the vectors the class keeps. */
  class TestMPITaskParallel {
    var taskData: TaskData
    var data: seq<int>
    var path: seq<int>

    constructor(td: TaskData)
      ensures taskData == td && data == [] && path == []
    {
      taskData := td;
      data, path := [], [];
    }

    /** `validation`, with the checks in the order the task makes them. */
    method Validation(rank: nat, size: nat) returns (ok: bool)
      ensures ok == LineValid(taskData, rank, size)
    {
      var td := taskData;
      if |td.inputsCount| < 3 {
        return false;
      }
      var start, end, n := StartRank(td), EndRank(td), ElementCount(td);
      if start < 0 || start >= size || end < 0 || end >= size || n <= 0 {
        return false;
      }
      if rank == start && (|td.inputs| == 0 || td.inputs[0].Null?) {
        return false;
      }
      if rank == end && (|td.outputs| == 0 || td.outputs[0].Null? || |td.outputs| < 2 || td.outputs[1].Null?) {
        return false;
      }
      ok := true;
    }

    /**
     * `pre_processing`: the start rank takes the first n input elements
     * and a path holding its own rank; a distinct end rank sizes its data
     * to n zeros and its path to size zeros.
     */
    method PreProcessing(rank: nat, size: nat) returns (ok: bool)
      requires |taskData.inputsCount| >= 3 && ElementCount(taskData) >= 0
      requires rank == StartRank(taskData) ==> |taskData.inputs| >= 1
      requires rank == StartRank(taskData) && taskData.inputs[0].Data? ==>
        ElementCount(taskData) <= |taskData.inputs[0].items|
      modifies this
      ensures ok && taskData == old(taskData)
      ensures var start, end, n := StartRank(taskData), EndRank(taskData), ElementCount(taskData);
        && (rank == start ==> path == [rank])
        && (rank == start && taskData.inputs[0].Data? ==> data == Input(taskData, 0, n))
        && (rank == start && taskData.inputs[0].Null? ==> data == old(data))
        && (rank != start && rank == end ==> data == seq(n, _ => 0) && path == seq(size, _ => 0))
        && (rank != start && rank != end ==> data == old(data) && path == old(path))
    {
      var td := taskData;
      var start, end, n := StartRank(td), EndRank(td), ElementCount(td);
      if rank == start {
        if td.inputs[0].Data? {
          data := Input(td, 0, n);
        }
        path := [rank];
      }
      if rank == end && start != end {
        data := seq(n, _ => 0);
        path := seq(size, _ => 0);
      }
      ok := true;
    }

    /**
     * One rank's step of the relay. The start rank sends its data with a
     * fresh path; a later rank takes `received` from its predecessor,
     * writes its own rank at path entry `at`, keeps the message if it is
     * the end rank and sends it on otherwise.
     */
    method Relay(rank: nat, size: nat, received: Message, at: nat) returns (sent: Outgoing)
      requires |taskData.inputsCount| >= 3 && rank < size
      requires var start, end := StartRank(taskData), EndRank(taskData);
        && 0 <= start && start < end && start <= rank <= end && at < size
        && (rank == start ==> |data| == ElementCount(taskData))
        && (rank != start ==> |received.path| == size)
      modifies this
      ensures taskData == old(taskData)
      ensures rank == StartRank(taskData) ==>
        && sent == Send(Message(old(data), Initial(size, rank)))
        && data == old(data) && path == old(path)
      ensures rank != StartRank(taskData) ==>
        var m := Message(received.data, received.path[at := rank]);
        && sent == (if rank < EndRank(taskData) then Send(m) else Nothing)
        && (rank == EndRank(taskData) ==> data == m.data && path == m.path)
        && (rank < EndRank(taskData) ==> data == old(data) && path == old(path))
    {
      var td := taskData;
      if rank == StartRank(td) {
        var dataArr := data;
        var pathArr := InitialPath(size, rank);
        assert pathArr == Initial(size, rank);
        sent := Send(Message(dataArr, pathArr));
      } else {
        var pathArr := received.path[at := rank];
        var m := Message(received.data, pathArr);
        if rank == EndRank(td) {
          data, path := m.data, m.path;
        }
        sent := if rank < EndRank(td) then Send(m) else Nothing;
      }
    }

    /**
     * `run` on `rank` of a world of `size` ranks, given the message its
     * predecessor sent: nothing happens off the line or when start and end
     * coincide; on the line, rank k marks path entry k.
     */
    method Run(rank: nat, size: nat, received: Message) returns (ok: bool, sent: Outgoing)
      requires |taskData.inputsCount| >= 3 && rank < size
      requires 0 <= StartRank(taskData) && EndRank(taskData) < size
      requires rank == StartRank(taskData) ==> |data| == ElementCount(taskData)
      requires StartRank(taskData) < rank <= EndRank(taskData) ==> |received.path| == size
      modifies this
      ensures ok && taskData == old(taskData)
      ensures var start, end := StartRank(taskData), EndRank(taskData);
        start == end || rank < start || rank > end ==> sent == Nothing && data == old(data) && path == old(path)
      ensures var start, end := StartRank(taskData), EndRank(taskData);
        start < end && rank == start ==> sent == Send(Message(old(data), Initial(size, rank))) && data == old(data) && path == old(path)
      ensures var start, end := StartRank(taskData), EndRank(taskData);
        start < rank <= end ==>
          var m := Message(received.data, received.path[rank := rank]);
          && sent == (if rank < end then Send(m) else Nothing)
          && (rank == end ==> data == m.data && path == m.path)
          && (rank < end ==> data == old(data) && path == old(path))
    {
      var start, end := StartRank(taskData), EndRank(taskData);
      ok := true;
      if start == end || rank < start || rank > end {
        return ok, Nothing;
      }
      sent := Relay(rank, size, received, rank);
    }

    /** The corrected `run`: rank k marks path entry k - start. */
    method CorrectedRun(rank: nat, size: nat, received: Message) returns (ok: bool, sent: Outgoing)
      requires |taskData.inputsCount| >= 3 && rank < size
      requires 0 <= StartRank(taskData) && EndRank(taskData) < size
      requires rank == StartRank(taskData) ==> |data| == ElementCount(taskData)
      requires StartRank(taskData) < rank <= EndRank(taskData) ==> |received.path| == size
      modifies this
      ensures ok && taskData == old(taskData)
      ensures var start, end := StartRank(taskData), EndRank(taskData);
        start == end || rank < start || rank > end ==> sent == Nothing && data == old(data) && path == old(path)
      ensures var start, end := StartRank(taskData), EndRank(taskData);
        start < end && rank == start ==> sent == Send(Message(old(data), Initial(size, rank))) && data == old(data) && path == old(path)
      ensures var start, end := StartRank(taskData), EndRank(taskData);
        start < rank <= end ==>
          var m := Message(received.data, received.path[rank - start := rank]);
          && sent == (if rank < end then Send(m) else Nothing)
          && (rank == end ==> data == m.data && path == m.path)
          && (rank < end ==> data == old(data) && path == old(path))
    {
      var start, end := StartRank(taskData), EndRank(taskData);
      ok := true;
      if start == end || rank < start || rank > end {
        return ok, Nothing;
      }
      sent := Relay(rank, size, received, rank - start);
    }

    /**
     * `post_processing`: the end rank copies data into output buffer 0 and
     * path into output buffer 1, skipping a null buffer; other ranks do
     * nothing.
     */
    method PostProcessing(rank: nat) returns (ok: bool)
      requires |taskData.inputsCount| >= 3
      requires rank == EndRank(taskData) ==>
        && |taskData.outputs| >= 2
        && (taskData.outputs[0].Data? ==> |data| <= |taskData.outputs[0].items|)
        && (taskData.outputs[1].Data? ==> |path| <= |taskData.outputs[1].items|)
      modifies this
      ensures ok && data == old(data) && path == old(path)
      ensures rank != EndRank(old(taskData)) ==> taskData == old(taskData)
      ensures rank == EndRank(old(taskData)) ==>
        var out := old(taskData).outputs;
        taskData == old(taskData).(outputs := [Copied(out[0], data), Copied(out[1], path)] + out[2..])
    {
      var td := taskData;
      if rank == EndRank(td) {
        var out := td.outputs;
        taskData := td.(outputs := [Copied(out[0], data), Copied(out[1], path)] + out[2..]);
      }
      ok := true;
    }
  }

  /**
   * `run` on every rank of the world in rank order, each rank handed what
   * its predecessor sent: the end rank ends with the start rank's data and
   * the path that Chain describes.
   */
  method RunLine(tasks: seq<TestMPITaskParallel>, start: nat, end: nat) returns (ok: bool)
    requires start < end < |tasks|
    requires forall i, j :: 0 <= i < j < |tasks| ==> tasks[i] != tasks[j]
    requires forall r :: 0 <= r < |tasks| ==>
      |tasks[r].taskData.inputsCount| >= 3 && StartRank(tasks[r].taskData) == start && EndRank(tasks[r].taskData) == end
    requires |tasks[start].data| == ElementCount(tasks[start].taskData)
    modifies set r | 0 <= r < |tasks| :: tasks[r]
    ensures ok
    ensures tasks[end].data == old(tasks[start].data)
    ensures tasks[end].path == Chain(old(tasks[start].data), |tasks|, start, end).path
  {
    var size := |tasks|;
    var input := tasks[start].data;
    var inbox := Message([], []);
    ok := true;
    var k := 0;
    while k < size
      invariant 0 <= k <= size && ok
      invariant forall r :: 0 <= r < size ==> tasks[r].taskData == old(tasks[r].taskData)
      invariant k <= start ==> tasks[start].data == input
      invariant start < k <= end ==> inbox == Chain(input, size, start, k - 1)
      invariant end < k ==> tasks[end].data == input && tasks[end].path == Chain(input, size, start, end).path
    {
      var stepOk, sent := tasks[k].Run(k, size, inbox);
      ok := ok && stepOk;
      if sent.Send? {
        inbox := sent.msg;
      }
      if k == end {
        ChainShape(input, size, start, end);
      }
      k := k + 1;
    }
  }

  /** The corrected `run` on every rank in order: the end rank's path is the one CorrectedChain describes. */
  method CorrectedRunLine(tasks: seq<TestMPITaskParallel>, start: nat, end: nat) returns (ok: bool)
    requires start < end < |tasks|
    requires forall i, j :: 0 <= i < j < |tasks| ==> tasks[i] != tasks[j]
    requires forall r :: 0 <= r < |tasks| ==>
      |tasks[r].taskData.inputsCount| >= 3 && StartRank(tasks[r].taskData) == start && EndRank(tasks[r].taskData) == end
    requires |tasks[start].data| == ElementCount(tasks[start].taskData)
    modifies set r | 0 <= r < |tasks| :: tasks[r]
    ensures ok
    ensures tasks[end].data == old(tasks[start].data)
    ensures tasks[end].path == CorrectedChain(old(tasks[start].data), |tasks|, start, end).path
  {
    var size := |tasks|;
    var input := tasks[start].data;
    var inbox := Message([], []);
    ok := true;
    var k := 0;
    while k < size
      invariant 0 <= k <= size && ok
      invariant forall r :: 0 <= r < size ==> tasks[r].taskData == old(tasks[r].taskData)
      invariant k <= start ==> tasks[start].data == input
      invariant start < k <= end ==> inbox == CorrectedChain(input, size, start, k - 1)
      invariant end < k ==> tasks[end].data == input && tasks[end].path == CorrectedChain(input, size, start, end).path
    {
      var stepOk, sent := tasks[k].CorrectedRun(k, size, inbox);
      ok := ok && stepOk;
      if sent.Send? {
        inbox := sent.msg;
      }
      if k == end {
        CorrectedChainShape(input, size, start, end);
      }
      k := k + 1;
    }
  }
}
