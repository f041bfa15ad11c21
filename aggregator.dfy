/** The steady-state aggregator: groups the labelled samples by stage, keeps
    the trailing 33% of each group and averages the two measurement columns
    over what is kept, one row per stage. */
module Aggregator {
  import opened Sequences

  /** The two measurement columns of one trace row, in the trace's column order
      (heart rate, then oxygen uptake per kilogram). */
  datatype Sample = Sample(hr: real, vo2: real)

  /** One row of the per-stage means. */
  datatype StageMean = StageMean(stage: nat, hr: real, vo2: real)

  /** Positions of the rows labelled with stage s, in row order. Row j carries
      label labels[j]; rows past the end of labels carry none. */
  function GroupPositions(labels: seq<nat>, s: nat): (r: seq<nat>)
    ensures forall k :: 0 <= k < |r| ==> r[k] < |labels|
  {
    if labels == [] then []
    else
      var n := |labels| - 1;
      GroupPositions(labels[..n], s) + (if labels[n] == s then [n] else [])
  }

  /** The rows of stage s, in their original order. */
  function Group(samples: seq<Sample>, labels: seq<nat>, s: nat): (g: seq<Sample>)
    requires |labels| <= |samples|
    ensures |g| == |GroupPositions(labels, s)|
  {
    var gp := GroupPositions(labels, s);
    seq(|gp|, k requires 0 <= k < |gp| => samples[gp[k]])
  }

  /** A group holds exactly the labelled rows with its stage, in row order. */
  lemma {:induction false} GroupPositionsExact(labels: seq<nat>, s: nat)
    ensures StrictlyIncreasing(GroupPositions(labels, s))
    ensures forall p :: p in GroupPositions(labels, s) <==> 0 <= p < |labels| && labels[p] == s
  {
    if labels != [] {
      var n := |labels| - 1;
      GroupPositionsExact(labels[..n], s);
      assert labels[..n] + [labels[n]] == labels;
    }
  }

  /** A stage that labels no row has an empty group. */
  lemma UnusedStageHasEmptyGroup(labels: seq<nat>, s: nat)
    requires forall j :: 0 <= j < |labels| ==> labels[j] != s
    ensures GroupPositions(labels, s) == []
  {
    GroupPositionsExact(labels, s);
    if GroupPositions(labels, s) != [] {
      assert GroupPositions(labels, s)[0] in GroupPositions(labels, s);
    }
  }

  /** How many rows of a group of n are kept: 33% of n, rounded down. */
  function KeepCount(n: nat): (k: nat)
    ensures k <= n && 3 * k <= n
    ensures k == 0 <==> n <= 3
  {
    33 * n / 100
  }

  /** The last KeepCount(|g|) rows of a group, in their original order. */
  function SteadyTail<T>(g: seq<T>): (r: seq<T>)
    ensures |r| == KeepCount(|g|)
    ensures g == g[..|g| - |r|] + r
  {
    g[|g| - KeepCount(|g|)..]
  }

  function Sum(xs: seq<real>): real {
    if xs == [] then 0.0 else Sum(xs[..|xs| - 1]) + xs[|xs| - 1]
  }

  /** The arithmetic mean of a non-empty column. */
  function Mean(xs: seq<real>): (m: real)
    requires |xs| > 0
    ensures (|xs| as real) * m == Sum(xs)
  {
    Sum(xs) / (|xs| as real)
  }

  lemma {:induction false} SumBetween(xs: seq<real>, lo: real, hi: real)
    requires forall i :: 0 <= i < |xs| ==> lo <= xs[i] <= hi
    ensures (|xs| as real) * lo <= Sum(xs) <= (|xs| as real) * hi
  {
    if xs != [] {
      SumBetween(xs[..|xs| - 1], lo, hi);
    }
  }

  /** A mean lies between any lower and upper bound of the values averaged. */
  lemma MeanBetween(xs: seq<real>, lo: real, hi: real)
    requires |xs| > 0
    requires forall i :: 0 <= i < |xs| ==> lo <= xs[i] <= hi
    ensures lo <= Mean(xs) <= hi
  {
    SumBetween(xs, lo, hi);
    var n := |xs| as real;
    assert Sum(xs) / n >= lo by { assert Sum(xs) >= n * lo; }
    assert Sum(xs) / n <= hi by { assert Sum(xs) <= n * hi; }
  }

  /** The mean of a constant column is that constant. */
  lemma MeanOfConstant(xs: seq<real>, c: real)
    requires |xs| > 0
    requires forall i :: 0 <= i < |xs| ==> xs[i] == c
    ensures Mean(xs) == c
  {
    MeanBetween(xs, c, c);
  }

  function HrColumn(g: seq<Sample>): seq<real> {
    seq(|g|, i requires 0 <= i < |g| => g[i].hr)
  }

  function Vo2Column(g: seq<Sample>): seq<real> {
    seq(|g|, i requires 0 <= i < |g| => g[i].vo2)
  }

  /** Whether stage s keeps at least one row: its group is larger than three
      (see KeepCount). */
  predicate HasSteadyRows(labels: seq<nat>, s: nat) {
    |GroupPositions(labels, s)| > 3
  }

  /** The means of stage s over its kept rows. */
  function StageMeanOf(samples: seq<Sample>, labels: seq<nat>, s: nat): (m: StageMean)
    requires |labels| <= |samples|
    requires HasSteadyRows(labels, s)
    ensures m.stage == s
  {
    var kept := SteadyTail(Group(samples, labels, s));
    assert |kept| > 0;
    StageMean(s, Mean(HrColumn(kept)), Mean(Vo2Column(kept)))
  }

  /** The stages below n that keep at least one row, by increasing stage (the
      groups the second groupby sees). */
  function SteadyStages(labels: seq<nat>, n: nat): (r: seq<nat>)
    ensures forall i :: 0 <= i < |r| ==> r[i] < n && HasSteadyRows(labels, r[i])
  {
    if n == 0 then []
    else SteadyStages(labels, n - 1) + (if HasSteadyRows(labels, n - 1) then [n - 1] else [])
  }

  /** One row of means per stage below n that keeps at least one row. */
  function Summaries(samples: seq<Sample>, labels: seq<nat>, n: nat): (r: seq<StageMean>)
    requires |labels| <= |samples|
    ensures |r| == |SteadyStages(labels, n)|
  {
    var ss := SteadyStages(labels, n);
    seq(|ss|, i requires 0 <= i < |ss| => StageMeanOf(samples, labels, ss[i]))
  }

  function StagesOf(rows: seq<StageMean>): seq<nat> {
    seq(|rows|, i requires 0 <= i < |rows| => rows[i].stage)
  }

  lemma {:induction false} SteadyStagesIncreasing(labels: seq<nat>, n: nat)
    ensures StrictlyIncreasing(SteadyStages(labels, n))
  {
    if n > 0 {
      SteadyStagesIncreasing(labels, n - 1);
    }
  }

  lemma {:induction false} SteadyStagesPresence(labels: seq<nat>, n: nat, s: nat)
    ensures s in SteadyStages(labels, n) <==> s < n && HasSteadyRows(labels, s)
  {
    if n > 0 {
      SteadyStagesPresence(labels, n - 1, s);
    }
  }

  /** Result rows name their stages in the order SteadyStages lists them. */
  lemma SummariesStages(samples: seq<Sample>, labels: seq<nat>, n: nat)
    requires |labels| <= |samples|
    ensures StagesOf(Summaries(samples, labels, n)) == SteadyStages(labels, n)
  {
    var rows := Summaries(samples, labels, n);
    var ss := SteadyStages(labels, n);
    forall i | 0 <= i < |ss| ensures StagesOf(rows)[i] == ss[i] {
      assert rows[i] == StageMeanOf(samples, labels, ss[i]);
    }
  }

  /** Result rows come by strictly increasing stage, each below n and each the
      means of its stage's kept rows. */
  lemma SummariesOrdered(samples: seq<Sample>, labels: seq<nat>, n: nat)
    requires |labels| <= |samples|
    ensures var rows := Summaries(samples, labels, n);
            StrictlyIncreasing(StagesOf(rows))
            && (forall i :: 0 <= i < |rows| ==>
                  rows[i].stage < n
                  && HasSteadyRows(labels, rows[i].stage)
                  && rows[i] == StageMeanOf(samples, labels, rows[i].stage))
  {
    var rows := Summaries(samples, labels, n);
    var ss := SteadyStages(labels, n);
    SteadyStagesIncreasing(labels, n);
    SummariesStages(samples, labels, n);
    forall i | 0 <= i < |rows|
      ensures rows[i].stage < n && HasSteadyRows(labels, rows[i].stage)
      ensures rows[i] == StageMeanOf(samples, labels, rows[i].stage)
    {
      assert rows[i] == StageMeanOf(samples, labels, ss[i]);
    }
  }

  /** A stage has a result row exactly when it is below n and its group has at
      least four rows: a group of three or fewer keeps nothing. */
  lemma SummariesPresence(samples: seq<Sample>, labels: seq<nat>, n: nat, s: nat)
    requires |labels| <= |samples|
    ensures s in StagesOf(Summaries(samples, labels, n)) <==> s < n && |Group(samples, labels, s)| >= 4
  {
    SummariesStages(samples, labels, n);
    SteadyStagesPresence(labels, n, s);
  }
}
