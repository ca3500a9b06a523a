# Benchmark harness: a verified model

This is a Dafny model of a small JavaScript micro-benchmarking harness. The harness has two `Benchmark` classes, one in
`js_bench_cpu.js` and one in `main.js`. Each keeps a log of result records, `results`. Each has four operations:
- `run` times repeated calls of a function and appends one record.
- `compare` runs several named functions in entry order.
- `printResults` picks the fastest record and reports how much slower every other record is.
- `clear` empties the log.

`js_bench_cpu.js` also holds two workloads the harness times: naive recursive Fibonacci (`fibi`) and the sieve of
Eratosthenes (`sieve`).

Modules:

- `Common` (common.dfy) holds the shared pieces.
  - The runtime exceptions: `reduce` of an empty array, and an invalid array length.
  - `Result`.
  - `Workload`, a zero-argument function. The harness ignores its return value, so the model sees only how often it is called.
  - `Entry`, one `[name, fn]` pair of the `tests` object.
- `Ranking` (ranking.dfy) is the comparison part of `printResults`, which is the same in both classes.
  - The fastest record is a left fold that keeps the accumulator only while it is *strictly* smaller.
  - `PrintRanking` is the `forEach` that reports every other record's slowdown ratio.
  - Records are told apart by position. The source compares them by object identity, and every record is a distinct object.
- `CpuBench` (cpu_bench.dfy) is the `Benchmark` of `js_bench_cpu.js`.
  - It makes one warm-up call.
  - Each iteration takes one `Measurement`: clock, heap and CPU readings before and after the call.
  - The heap growth is clamped at zero.
  - The measurements are reduced to a mean duration, a mean memory delta and a *total* CPU time in seconds (`Summarize`).
- `SimpleBench` (simple_bench.dfy) is the `Benchmark` of `main.js`.
  - There is no warm-up, and one clock reading is taken on each side of the whole loop.
  - The record holds the elapsed time and its mean.
  - The module also holds `Fn`, the recursive function inside that file's Fibonacci test, and proves it equal to `fibi`.
- `Kernels` (kernels.dfy) holds `fibi` and `sieve`.
  - The sieve's marking phase works in place on an `array<bool>` with the source's nested loops.
  - It is proved to leave a flag set at j ≥ 2 exactly when j is prime.
  - The final `reduce` then collects the primes up to n in increasing order.

The host's probes are parameters:
- `CpuBench.Benchmark.Run` takes one `Probe` per iteration. A `Probe` holds the integer readings of `process.cpuUsage()`, `process.memoryUsage().heapUsed` and `performance.now()` on each side of the call.
- `SimpleBench.Benchmark.Run` takes the two clock readings as a `Timing`.
- `compare` takes one such input per entry.

Durations are whole clock ticks. Averages and ratios are `real`.

Points where the code behaves differently from what one might expect of a benchmark harness:
- **Ties.** On equal `averageTime` the *later* record is the fastest, not the first. The fold keeps `prev` only when `prev.averageTime < current.averageTime` (`Ranking.TieGoesToLater`).
- **CPU time.** `cpuUsage` in `js_bench_cpu.js` is the *sum* of user and system microseconds divided by 10^6. It is not divided by `iterations`, so it is a total, not a mean (`CpuBench.CpuUsageIsTotal`).
- **Iteration count.** Neither `run` checks `iterations`. No error is raised for a zero or negative count. With 0, `js_bench_cpu.js` yields NaN (0/0) and `main.js` yields elapsed/0 (Infinity, or NaN if no tick elapsed). A negative count runs no iterations and still pushes a record: in `js_bench_cpu.js` after the warm-up call, with mean time and memory −0 and total and CPU time 0; in `main.js` with a mean of elapsed/iterations ≤ 0. The model requires `iterations >= 1` and covers neither case.
- **Empty log.** `printResults` on an empty log throws at the `reduce`, which has no initial value (`Ranking.RenderMeaning`, `SimpleBench.PrintAfterClear`).
- **Probes.** The `Benchmark` of `js_bench_cpu.js` always records memory and CPU for every iteration; nothing there is optional. The `Benchmark` of `main.js` records neither: its records hold only the name, the elapsed time, the count and the mean.
- **Array length.** `sieve(n)` throws at `new Array(n + 1)` both for n < -1 and for n + 1 above 2^32 − 1 (`Kernels.Sieve`).

## Model

| member | source | states |
|---|---|---|
| `Common.Workload.Invoke` | js_bench_cpu.js:23 | a call of `fn` counts exactly one more invocation |
| `Kernels.Fibi` | js_bench_cpu.js:95-98 | `fibi(n)` is non-negative for n ≥ 0 and at least 1 for n ≥ 2 |
| `Kernels.FibiMatchesPairs` | js_bench_cpu.js:95-98 | `fibi` agrees with the iterative pair recurrence (F(n), F(n+1)) for every n ≥ 0 |
| `Kernels.FibiMonotone` | js_bench_cpu.js:95-98 | `fibi` never decreases on non-negative arguments: 0 ≤ m ≤ n implies fibi(m) ≤ fibi(n) |
| `Kernels.FibiStrictlyIncreasing` | js_bench_cpu.js:95-98 | from n = 2 on, fibi(n) < fibi(n+1) |
| `Kernels.CrossedOffStep` | js_bench_cpu.js:102-107 | one pass of the outer loop crosses off exactly the multiples of i from i·i on; when `arr[i]` is already false that adds nothing new |
| `Kernels.CrossedOffIffComposite` | js_bench_cpu.js:102 | once i·i > j, j ≥ 2 has been crossed off exactly when it is composite, which is why i·i ≤ n suffices as the loop bound |
| `Kernels.MarkComposites` | js_bench_cpu.js:101-108 | after the nested marking loops the array has n + 1 entries. Entries 0 and 1 stay true. For 2 ≤ j ≤ n, `arr[j]` is true exactly when j is prime |
| `Kernels.CollectMarked` | js_bench_cpu.js:109-110 | the final `reduce` yields exactly the indices > 1 whose flag is set, strictly increasing |
| `Kernels.Sieve` | js_bench_cpu.js:100-111 | `sieve(n)` throws an invalid array length exactly when n + 1 is not a valid array length: n < -1 or n + 1 > 2^32 − 1. Otherwise it returns exactly the primes p with 2 ≤ p ≤ n, strictly increasing, so the result is empty for n < 2 |
| `Ranking.FoldFastest` | js_bench_cpu.js:74-76 | the fold's result is no larger than its starting accumulator and every later entry, strictly smaller than every entry after it, and is the accumulator only if that is strictly smaller than all remaining entries |
| `Ranking.Fastest` | main.js:46-48 | the `reduce` over the log selects a record whose `averageTime` is ≤ every record's and < every later record's: the last minimum |
| `Ranking.FastestIsTheLastMinimum` | js_bench_cpu.js:74-76 | a position is the last minimum of the averages if and only if it is the one the fold selects |
| `Ranking.TieGoesToLater` | main.js:46-48 | of two records with equal `averageTime`, the earlier one is never selected as fastest |
| `Ranking.RatioOf` | main.js:55 | the ratio has no finite value exactly when the fastest average is zero; otherwise ratio × fastest average = the record's average |
| `Ranking.SlowdownsUpTo` | main.js:53-58 | the slowdown lines the `forEach` has printed after its first i visits; `Ranking.SlowdownsCoverOthers` states that they are every position except the fastest, once each, in log order, with its ratio |
| `Ranking.SlowdownsCoverOthers` | main.js:53-58 | the `forEach` reports every position except the fastest, once each, in log order, each with its ratio to the fastest |
| `Ranking.Render` | js_bench_cpu.js:74-84 | the report of `printResults`: the `reduce` error on an empty log, else the fastest position and the slowdown lines; `Ranking.RenderMeaning` states that it fails exactly on an empty log and otherwise names the last minimum with \|results\| - 1 lines |
| `Ranking.RenderMeaning` | js_bench_cpu.js:74-84 | printing fails with the `reduce` error exactly when the log is empty. Otherwise it names the last minimum and one slowdown line for each of the other \|results\| - 1 records |
| `Ranking.RatiosAtLeastOne` | main.js:53-58 | when the fastest average is positive, every reported ratio is finite and ≥ 1, and > 1 for records after the fastest one |
| `Ranking.RatioAboveOne` | main.js:55 | with a positive fastest average, an average at least as large gives a finite ratio ≥ 1, and a strictly larger one gives > 1 |
| `Ranking.PrintRanking` | js_bench_cpu.js:74-84 | the loop over the log computes exactly the report described by `Ranking.Render`, failing on an empty log |
| `CpuBench.Measure` | js_bench_cpu.js:19-34 | the recorded memory delta is ≥ 0 and ≥ heapAfter − heapBefore, and is either 0 or that difference, so it equals the difference whenever the difference is non-negative |
| `CpuBench.Measurements` | js_bench_cpu.js:17-35 | the `measurements` array: one `Measure` per iteration, in order; `CpuBench.RunRecordMeaning` states that it has one entry per iteration, each with a memory delta ≥ 0 |
| `CpuBench.TotalDuration` | js_bench_cpu.js:38 | the summed durations; `CpuBench.TotalDurationNonNegative` states that it is ≥ 0 when every duration is, and `CpuBench.RunRecordMeaning` that it is the recorded `totalTime` |
| `CpuBench.TotalMemory` | js_bench_cpu.js:39 | the summed memory deltas; `CpuBench.TotalMemoryNonNegative` states that it is ≥ 0, and `CpuBench.RunRecordMeaning` that it is `memoryUsage × iterations` |
| `CpuBench.TotalCpu` | js_bench_cpu.js:40 | the summed user and system CPU microseconds; `CpuBench.TotalCpuOfConstant` states that it is count × c for a constant cost c, and `CpuBench.RunRecordMeaning` that it is `cpuUsage × 10^6` |
| `CpuBench.Summarize` | js_bench_cpu.js:37-49 | the record pushed at the end of `run`; `CpuBench.RunRecordMeaning` and `CpuBench.CpuUsageIsTotal` state its fields in terms of the measurements |
| `CpuBench.TotalMemoryNonNegative` | js_bench_cpu.js:39 | the summed memory deltas of clamped measurements are non-negative |
| `CpuBench.TotalDurationNonNegative` | js_bench_cpu.js:38 | with non-negative durations the summed duration is non-negative |
| `CpuBench.TotalCpuOfConstant` | js_bench_cpu.js:40 | with the same CPU cost c in every measurement, the CPU sum is (number of measurements) × c |
| `CpuBench.RunRecordMeaning` | js_bench_cpu.js:37-49 | the record of a run has one measurement per iteration, each with a memory delta ≥ 0. It keeps the name and the iteration count. `totalTime` equals the raw summed duration and `averageTime × iterations = totalTime`. `memoryUsage ≥ 0` and `memoryUsage × iterations` = summed clamped memory deltas. `cpuUsage × 10^6` = summed CPU microseconds. A monotone clock gives `averageTime ≥ 0` |
| `CpuBench.CpuUsageIsTotal` | js_bench_cpu.js:40 | with a constant per-iteration CPU time c µs, `cpuUsage` = iterations × c / 10^6: a total, not a mean |
| `CpuBench.Benchmark.constructor` | js_bench_cpu.js:2-4 | a new benchmark has an empty log |
| `CpuBench.Benchmark.Run` | js_bench_cpu.js:6-53 | `fn` is called iterations + 1 times (one warm-up). Exactly one record, the reduction of the per-iteration measurements, is appended after the unchanged earlier records |
| `CpuBench.Benchmark.Compare` | js_bench_cpu.js:55-60 | the log grows by one record per entry, in entry order, after the unchanged earlier records. Each workload is called (iterations + 1) × (its number of entries) more times |
| `CpuBench.Benchmark.PrintResults` | js_bench_cpu.js:62-85 | reads the log only and yields the ranking report of its averages, or the `reduce` error on an empty log |
| `CpuBench.Benchmark.Clear` | js_bench_cpu.js:87-90 | the log is empty afterwards |
| `SimpleBench.Summarize` | main.js:14-23 | the record pushed at the end of `run`; `SimpleBench.RunRecordMeaning` states its fields: the name, the count, the elapsed ticks and their mean |
| `SimpleBench.RunRecordMeaning` | main.js:14-23 | the record keeps the name and the iteration count. `totalTime` is the elapsed ticks and `averageTime × iterations = totalTime`. A non-decreasing clock gives 0 ≤ `averageTime` ≤ `totalTime` |
| `SimpleBench.SummariesInOrder` | main.js:29-33 | `compare` produces one record per entry, bearing the entry's name and its elapsed time, in entry order |
| `SimpleBench.Fn` | main.js:86-91 | the recursive `fn` of the Fibonacci test; `SimpleBench.FnIsFibi` states that it equals `fibi` on every integer |
| `SimpleBench.FnIsFibi` | main.js:86-91 | the Fibonacci test's inner `fn` equals `fibi` on every integer |
| `SimpleBench.Benchmark.constructor` | main.js:2-4 | a new benchmark has an empty log |
| `SimpleBench.Benchmark.Run` | main.js:7-26 | `fn` is called exactly `iterations` times, with no warm-up. Exactly one record (elapsed ticks, their mean) is appended after the unchanged earlier records |
| `SimpleBench.Benchmark.Compare` | main.js:29-34 | the log grows by one record per entry, in entry order, after the unchanged earlier records. Each workload is called iterations × (its number of entries) more times |
| `SimpleBench.Benchmark.PrintResults` | main.js:37-59 | reads the log only and yields the ranking report of its averages, or the `reduce` error on an empty log |
| `SimpleBench.Benchmark.Clear` | main.js:62-65 | the log is empty afterwards |
| `SimpleBench.ClearTwiceThenRun` | main.js:62-65 | clearing twice leaves the log empty, as clearing once does, and the next `run` puts its record at position 0 |
| `SimpleBench.PrintAfterClear` | main.js:46 | `printResults` right after `clear` fails at the `reduce` of an empty array |

## Left out

- Host probes: the model does not call `performance.now`, `process.cpuUsage` or `process.memoryUsage`. Their readings are parameters of `run` and `compare`, integers in clock ticks, bytes and microseconds.
- `global.gc()` is not modelled. It drops no state from the model.
- Console output is not modelled. This covers `console.log`, the `console.table` projection, every `toFixed` rounding, and the "RAM to CPU ratio" column, which is computed from the rounded strings. `printResults` is modelled by what it decides: the fastest record and the slowdown lines.
- `multiply` and `arrayop` are not modelled. They rest on `Math.random` and floating-point arithmetic, and `arrayop` returns nothing.
- The top-level script is not modelled: the `tests` objects, the `bench` instances and the calls of `compare` and `printResults` are configuration.
- `async`/`await` on `run` and `compare` is not modelled. Nothing runs concurrently, so both are sequential methods.
- The default `iterations = 1000` is not modelled. The caller always passes the count, together with one reading per iteration.
- `return this` (call chaining) is not modelled. The methods return nothing.
- A workload that throws is not modelled: every `Workload` call returns normally.
- The `Object.entries` order of the `tests` object is not modelled. That order puts integer-like keys first. `compare` takes the entries already in order.
- Floating point is not modelled: durations are integer ticks and averages are exact reals. NaN and Infinity do not arise, except that a ratio against a zero fastest average is `NotFinite`.
- `sieve` uses `i * i <= n` for its loop bound instead of `i <= Math.sqrt(n)`. For integers the two agree.
- `sieve` and `fibi` take integer arguments only. Fractional or non-numeric arguments are not modelled.
- `fibi` results are exact integers. JavaScript numbers lose precision above 2^53.
- `CpuBench.Benchmark.Run`, `SimpleBench.Benchmark.Run`: require `iterations >= 1`, because the source divides by `iterations`. With 0, `js_bench_cpu.js` yields NaN (0/0) and `main.js` yields elapsed/0 (Infinity, or NaN if no tick elapsed). A negative count runs no iterations and pushes a record with a zero or non-positive mean. The model covers neither case.
- `Ranking.RatiosAtLeastOne`: requires a positive fastest average. With a zero one the source prints Infinity or NaN, and that case is covered by `Ranking.RatioOf`.
