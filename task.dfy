/**
 * The task framework's data exchange record. Every task reads its inputs
 * from buffers `inputs[k]` holding `inputs_count[k]` elements and publishes
 * through `outputs[k]` / `outputs_count[k]`. A buffer is either null or a
 * sequence of elements; counts are unsigned in the framework, hence `nat`.
 */
module Task {
  datatype Buffer = Null | Data(items: seq<int>)

  datatype TaskData = TaskData(inputs: seq<Buffer>, inputsCount: seq<nat>, outputs: seq<Buffer>, outputsCount: seq<nat>)

  /** Input buffer k exists, is not null and holds at least n elements. */
  predicate InputHolds(td: TaskData, k: nat, n: nat)
  {
    k < |td.inputs| && td.inputs[k].Data? && n <= |td.inputs[k].items|
  }

  /** Input buffer k exists, is not null and holds at least inputs_count[k] elements. */
  predicate InputFilled(td: TaskData, k: nat)
  {
    k < |td.inputsCount| && InputHolds(td, k, td.inputsCount[k])
  }

  /** The first n elements of input buffer k. */
  function Input(td: TaskData, k: nat, n: nat): (s: seq<int>)
    requires InputHolds(td, k, n)
    ensures |s| == n
  {
    td.inputs[k].items[..n]
  }

  /** An unsigned count read into a 32-bit `int`: two's-complement wrap-around. */
  function ToInt32(n: nat): (v: int)
    ensures -0x8000_0000 <= v < 0x8000_0000
    ensures n < 0x8000_0000 ==> v == n
    ensures 0x8000_0000 <= n < 0x1_0000_0000 ==> v == n - 0x1_0000_0000
  {
    var m := n % 0x1_0000_0000;
    if m < 0x8000_0000 then m else m - 0x1_0000_0000
  }
}
