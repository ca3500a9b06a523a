/** The comparison part of `printResults`, identical in both Benchmark
    classes: the "fastest" record chosen by a `reduce` over the log, and the
    slowdown ratio of every other record against it. Records are identified
    by their position in the log (the source compares object identity, and
    every record is a distinct object). */
module Ranking {
  import opened Common

  /** `result.averageTime / fastest.averageTime`. A zero divisor gives
      Infinity or NaN in JavaScript; the model keeps no value then. */
  datatype Ratio = Times(factor: real) | NotFinite

  /** One "<name> is <ratio>x slower than <fastest>" line. */
  datatype Slowdown = Slowdown(index: nat, ratio: Ratio)

  /** What `printResults` reports besides the table. */
  datatype Report = Report(fastest: nat, slowdowns: seq<Slowdown>)

  /** k holds the minimum of avgs, and every later entry is strictly larger:
      k is the last position at which the minimum occurs. */
  ghost predicate IsLastMinimum(avgs: seq<real>, k: nat)
  {
    && k < |avgs|
    && (forall j :: 0 <= j < |avgs| ==> avgs[k] <= avgs[j])
    && (forall j :: k < j < |avgs| ==> avgs[k] < avgs[j])
  }

  /** The fold `(prev, current) => prev.averageTime < current.averageTime ?
      prev : current`, with accumulator `prev`, applied to positions i.. of
      the log. The accumulator survives only while it is strictly smaller. */
  function FoldFastest(avgs: seq<real>, prev: nat, i: nat): (k: nat)
    requires prev < i <= |avgs|
    ensures k < |avgs| && (k == prev || i <= k)
    ensures avgs[k] <= avgs[prev]
    ensures forall j :: i <= j < |avgs| ==> avgs[k] <= avgs[j]
    ensures forall j :: i <= j < |avgs| && k < j ==> avgs[k] < avgs[j]
    ensures k == prev ==> forall j :: i <= j < |avgs| ==> avgs[prev] < avgs[j]
    decreases |avgs| - i
  {
    if i == |avgs| then prev
    else FoldFastest(avgs, if avgs[prev] < avgs[i] then prev else i, i + 1)
  }

  /** `results.reduce(...)` without an initial value: the fold starts from
      the first record. */
  function Fastest(avgs: seq<real>): (k: nat)
    requires |avgs| > 0
    ensures IsLastMinimum(avgs, k)
  {
    FoldFastest(avgs, 0, 1)
  }

  /** The last minimum is unique, so Fastest is exactly the last position of
      the minimum average. */
  lemma FastestIsTheLastMinimum(avgs: seq<real>, k: nat)
    requires |avgs| > 0
    ensures IsLastMinimum(avgs, k) <==> k == Fastest(avgs)
  {
  }

  /** Equal averages: the later record wins. */
  lemma TieGoesToLater(avgs: seq<real>, j: nat, k: nat)
    requires j < k < |avgs| && avgs[j] == avgs[k]
    ensures Fastest(avgs) != j
  {
  }

  /** `(result.averageTime / fastest.averageTime)`. */
  function RatioOf(avg: real, best: real): (r: Ratio)
    ensures r.NotFinite? <==> best == 0.0
    ensures r.Times? ==> r.factor * best == avg
  {
    if best == 0.0 then NotFinite else Times(avg / best)
  }

  /** The slowdown lines the `forEach` over `results` has printed after
      visiting positions 0 .. i - 1: every position other than f. */
  function SlowdownsUpTo(avgs: seq<real>, f: nat, i: nat): seq<Slowdown>
    requires f < |avgs| && i <= |avgs|
  {
    if i == 0 then []
    else
      SlowdownsUpTo(avgs, f, i - 1)
        + (if i - 1 != f then [Slowdown(i - 1, RatioOf(avgs[i - 1], avgs[f]))] else [])
  }

  /** The lines cover every position of the log except f, once each, in log
      order, and each carries the ratio of its entry to entry f. */
  lemma {:induction false} SlowdownsCoverOthers(avgs: seq<real>, f: nat, i: nat)
    requires f < |avgs| && i <= |avgs|
    ensures |SlowdownsUpTo(avgs, f, i)| == if f < i then i - 1 else i
    ensures forall k :: 0 <= k < |SlowdownsUpTo(avgs, f, i)| ==>
      var s := SlowdownsUpTo(avgs, f, i)[k];
      s.index == (if k < f then k else k + 1) && s.ratio == RatioOf(avgs[s.index], avgs[f])
  {
    if i > 0 {
      SlowdownsCoverOthers(avgs, f, i - 1);
    }
  }

  /** The whole report: `reduce` throws on an empty log. */
  function Render(avgs: seq<real>): (r: Result<Report>)
  {
    if |avgs| == 0 then Failure(ReduceOfEmptyArray)
    else
      var f := Fastest(avgs);
      Success(Report(f, SlowdownsUpTo(avgs, f, |avgs|)))
  }

  /** The report fails exactly on an empty log; otherwise it names the last
      minimum and one line for each of the other records, in log order. */
  lemma RenderMeaning(avgs: seq<real>)
    ensures Render(avgs).Failure? <==> |avgs| == 0
    ensures Render(avgs).Failure? ==> Render(avgs).error == ReduceOfEmptyArray
    ensures Render(avgs).Success? ==>
      var rep := Render(avgs).value;
      && IsLastMinimum(avgs, rep.fastest)
      && |rep.slowdowns| == |avgs| - 1
      && forall k :: 0 <= k < |rep.slowdowns| ==>
           rep.slowdowns[k].index == (if k < rep.fastest then k else k + 1)
  {
    if |avgs| > 0 {
      SlowdownsCoverOthers(avgs, Fastest(avgs), |avgs|);
    }
  }

  /** With a positive fastest average every reported ratio is at least 1,
      and it is strictly above 1 for records after the fastest one. */
  lemma RatiosAtLeastOne(avgs: seq<real>)
    requires |avgs| > 0 && avgs[Fastest(avgs)] > 0.0
    ensures forall s :: s in Render(avgs).value.slowdowns ==>
      s.ratio.Times? && s.ratio.factor >= 1.0
      && (s.index > Fastest(avgs) ==> s.ratio.factor > 1.0)
  {
    var f := Fastest(avgs);
    SlowdownsCoverOthers(avgs, f, |avgs|);
    forall s | s in Render(avgs).value.slowdowns
      ensures s.ratio.Times? && s.ratio.factor >= 1.0
      ensures s.index > f ==> s.ratio.factor > 1.0
    {
      var k :| 0 <= k < |SlowdownsUpTo(avgs, f, |avgs|)| && SlowdownsUpTo(avgs, f, |avgs|)[k] == s;
      RatioAboveOne(avgs[s.index], avgs[f]);
    }
  }

  lemma RatioAboveOne(avg: real, best: real)
    requires best > 0.0 && avg >= best
    ensures RatioOf(avg, best).Times? && RatioOf(avg, best).factor >= 1.0
    ensures avg > best ==> RatioOf(avg, best).factor > 1.0
  {
  }

  /** The `forEach` of `printResults` after the `reduce`: visits the log in
      order and reports every record that is not the fastest one. */
  method PrintRanking(avgs: seq<real>) returns (r: Result<Report>)
    ensures r == Render(avgs)
  {
    if |avgs| == 0 {
      return Failure(ReduceOfEmptyArray);
    }
    var fastest := Fastest(avgs);
    var lines: seq<Slowdown> := [];
    for i := 0 to |avgs|
      invariant lines == SlowdownsUpTo(avgs, fastest, i)
    {
      if i != fastest {
        lines := lines + [Slowdown(i, RatioOf(avgs[i], avgs[fastest]))];
      }
    }
    r := Success(Report(fastest, lines));
  }
}
