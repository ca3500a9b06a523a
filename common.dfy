/** Shared vocabulary of the benchmark harness: the failures the JavaScript
    runtime raises in the modelled code, and the workload callables that the
    harness invokes. */
module Common {

  /** The exceptions the modelled code can raise. */
  datatype Error =
    | ReduceOfEmptyArray   // Array.prototype.reduce without an initial value on []
    | InvalidArrayLength   // new Array(len) with len < 0 or len > 2^32 - 1

  /** A value, or the exception that replaced it. */
  datatype Result<T> = Success(value: T) | Failure(error: Error)

  /** A zero-argument workload function. The harness ignores what it returns;
      the only thing it can observe is that it was called, so a workload is
      modelled by the number of times it has been invoked. */
  class Workload {
    var calls: nat

    constructor ()
      ensures calls == 0
    {
      calls := 0;
    }

    /** One call `fn()`. */
    method Invoke()
      modifies this
      ensures calls == old(calls) + 1
    {
      calls := calls + 1;
    }
  }

  /** One `[name, fn]` pair of `Object.entries(tests)`. */
  datatype Entry = Entry(name: string, fn: Workload)

  /** The workloads named by a list of entries. */
  function Workloads(tests: seq<Entry>): set<Workload>
  {
    set k | 0 <= k < |tests| :: tests[k].fn
  }

  /** How many entries of `tests` run the workload `w`. */
  function Uses(tests: seq<Entry>, w: Workload): nat
  {
    if tests == [] then 0
    else Uses(tests[..|tests| - 1], w) + (if tests[|tests| - 1].fn == w then 1 else 0)
  }

  /** Extending the entries by one adds that entry's use of w. */
  lemma UsesExtend(tests: seq<Entry>, i: nat, w: Workload)
    requires i < |tests|
    ensures Uses(tests[..i + 1], w) == Uses(tests[..i], w) + (if tests[i].fn == w then 1 else 0)
  {
    assert tests[..i + 1][..i] == tests[..i];
  }

  /** One more use of a workload adds one more batch of k calls; the
      `Compare` loops use it to step their call-count invariants. */
  lemma MulSucc(u: nat, k: nat)
    ensures (u + 1) * k == u * k + k
  {
  }
}
