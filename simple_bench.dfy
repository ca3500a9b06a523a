/** The `Benchmark` class of main.js: no warm-up, one clock reading before
    and one after the whole loop of calls, and a record of the elapsed time
    and its mean. Also the recursive `fn` of the Fibonacci test in that
    file. The clock (`performance.now`) is injected as the two readings. */
module SimpleBench {
  import opened Common
  import Ranking
  import Kernels

  /** `performance.now()` just before and just after the loop of calls. */
  datatype Timing = Timing(start: int, end: int)

  /** One entry of `results`, times in clock ticks. */
  datatype Record = Record(name: string, totalTime: int, iterations: nat, averageTime: real)

  /** The record pushed at the end of `run`. */
  function Summarize(name: string, iterations: nat, t: Timing): Record
    requires iterations >= 1
  {
    var duration := t.end - t.start;
    Record(name, duration, iterations, duration as real / iterations as real)
  }

  /** The records `compare` appends, one per entry in entry order. */
  function Summaries(tests: seq<Entry>, iterations: nat, clocks: seq<Timing>): seq<Record>
    requires iterations >= 1 && |clocks| == |tests|
  {
    seq(|tests|, k requires 0 <= k < |tests| => Summarize(tests[k].name, iterations, clocks[k]))
  }

  /** The records of one more entry extend the records of the entries
      before it. */
  lemma SummariesExtend(tests: seq<Entry>, iterations: nat, clocks: seq<Timing>, i: nat)
    requires iterations >= 1 && |clocks| == |tests| && i < |tests|
    ensures Summaries(tests[..i + 1], iterations, clocks[..i + 1])
      == Summaries(tests[..i], iterations, clocks[..i]) + [Summarize(tests[i].name, iterations, clocks[i])]
  {
  }

  function Averages(rs: seq<Record>): seq<real>
  {
    seq(|rs|, k requires 0 <= k < |rs| => rs[k].averageTime)
  }

  /** The record of one `run` holds the elapsed time, and its mean times
      the iteration count gives that time back. */
  lemma RunRecordMeaning(name: string, iterations: nat, t: Timing)
    requires iterations >= 1
    ensures var r := Summarize(name, iterations, t);
      && r.name == name && r.iterations == iterations
      && r.totalTime == t.end - t.start
      && r.averageTime * iterations as real == r.totalTime as real
      && (t.start <= t.end ==> 0.0 <= r.averageTime <= r.totalTime as real)
  {
  }

  /** `compare` appends one record per entry, named as the entries, in
      entry order. */
  lemma SummariesInOrder(tests: seq<Entry>, iterations: nat, clocks: seq<Timing>)
    requires iterations >= 1 && |clocks| == |tests|
    ensures |Summaries(tests, iterations, clocks)| == |tests|
    ensures forall k :: 0 <= k < |tests| ==>
      Summaries(tests, iterations, clocks)[k].name == tests[k].name
      && Summaries(tests, iterations, clocks)[k].totalTime == clocks[k].end - clocks[k].start
  {
  }

  /** The recursive `fn` inside the Fibonacci test. */
  function Fn(n: int): int
    decreases n
  {
    if n <= 1 then n else Fn(n - 1) + Fn(n - 2)
  }

  /** The test's `fn` is the same function as `fibi` of js_bench_cpu.js. */
  lemma {:induction false} FnIsFibi(n: int)
    ensures Fn(n) == Kernels.Fibi(n)
    decreases n
  {
    if n > 1 {
      FnIsFibi(n - 1);
      FnIsFibi(n - 2);
    }
  }

  class Benchmark {
    var results: seq<Record>

    constructor ()
      ensures results == []
    {
      results := [];
    }

    /** `run(name, fn, iterations)`: `iterations` calls between two clock
        readings, then one appended record. */
    method Run(name: string, fn: Workload, iterations: nat, t: Timing)
      requires iterations >= 1
      modifies this, fn
      ensures results == old(results) + [Summarize(name, iterations, t)]
      ensures fn.calls == old(fn.calls) + iterations
    {
      var start := t.start;
      for i := 0 to iterations
        invariant fn.calls == old(fn.calls) + i
        invariant results == old(results)
      {
        fn.Invoke();
      }
      var end := t.end;
      // The record of the source, step by step; Summarize is its specification.
      var duration := end - start;
      var average := duration as real / iterations as real;
      results := results + [Record(name, duration, iterations, average)];
    }

    /** `compare(tests, iterations)`: `run` for every entry, in entry order.
        A workload listed under several names runs once per listing. */
    method Compare(tests: seq<Entry>, iterations: nat, clocks: seq<Timing>)
      requires iterations >= 1 && |clocks| == |tests|
      modifies this, Workloads(tests)
      ensures results == old(results) + Summaries(tests, iterations, clocks)
      ensures forall w :: w in Workloads(tests) ==> w.calls == old(w.calls) + Uses(tests, w) * iterations
    {
      for i := 0 to |tests|
        invariant results == old(results) + Summaries(tests[..i], iterations, clocks[..i])
        invariant forall w :: w in Workloads(tests) ==>
          w.calls == old(w.calls) + Uses(tests[..i], w) * iterations
      {
        Run(tests[i].name, tests[i].fn, iterations, clocks[i]);
        SummariesExtend(tests, iterations, clocks, i);
        forall w | w in Workloads(tests)
          ensures w.calls == old(w.calls) + Uses(tests[..i + 1], w) * iterations
        {
          UsesExtend(tests, i, w);
          MulSucc(Uses(tests[..i], w), iterations);
        }
      }
      assert tests[..|tests|] == tests;
      assert clocks[..|tests|] == clocks;
    }

    /** `printResults()`, without the table: the fastest record and the
        slowdown of every other one; fails on an empty log. */
    method PrintResults() returns (r: Result<Ranking.Report>)
      ensures r == Ranking.Render(Averages(results))
    {
      r := Ranking.PrintRanking(Averages(results));
    }

    /** `clear()` */
    method Clear()
      modifies this
      ensures results == []
    {
      results := [];
    }
  }

  /** Clearing twice leaves the same empty log as clearing once, and the
      next `run` puts its record at position 0. */
  method ClearTwiceThenRun(b: Benchmark, name: string, fn: Workload, iterations: nat, t: Timing)
    requires iterations >= 1
    modifies b, fn
    ensures b.results == [Summarize(name, iterations, t)]
    ensures b.results[0].name == name
  {
    b.Clear();
    b.Clear();
    assert b.results == [];
    b.Run(name, fn, iterations, t);
  }

  /** After `clear`, `printResults` fails at the `reduce`. */
  method PrintAfterClear(b: Benchmark) returns (r: Result<Ranking.Report>)
    modifies b
    ensures r == Failure(ReduceOfEmptyArray)
  {
    b.Clear();
    r := b.PrintResults();
  }
}
