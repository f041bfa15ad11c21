/** The table-cleaning routine end to end: prune the raw trace, read its
    timestamps, assign stages, average each stage's steady-state rows and merge
    them with the operator's stage table. */
module CleanTable {
  import opened Outcome
  import opened Clock
  import opened Pruner
  import opened Resolver
  import opened Aggregator
  import opened Merger

  /** A cell of the raw trace as the loader delivers it. */
  datatype TraceCell = ClockCell(time: ClockTime) | NumberCell(value: real) | TextCell(text: string)

  /** Whether a cell holds a valid `HH:MM:SS` time of day. */
  predicate IsTimestamp(c: TraceCell) {
    c.ClockCell? && ValidClock(c.time)
  }

  /** The timestamps of the pruned rows (first column), as seconds since
      midnight; fails at the first row whose timestamp cannot be parsed. */
  function ReadTimes(rows: seq<seq<TraceCell>>): (r: Result<seq<nat>>)
    requires forall i :: 0 <= i < |rows| ==> |rows[i]| > 0
    ensures r.Ok? <==> forall i :: 0 <= i < |rows| ==> IsTimestamp(rows[i][0])
    ensures r.Ok? ==> |r.value| == |rows|
                      && forall i :: 0 <= i < |rows| ==> r.value[i] == Seconds(rows[i][0].time)
    ensures r.Err? ==> r.error.MalformedTime? && r.error.row < |rows|
                       && !IsTimestamp(rows[r.error.row][0])
                       && forall i :: 0 <= i < r.error.row ==> IsTimestamp(rows[i][0])
  {
    if rows == [] then Ok([])
    else
      var n := |rows| - 1;
      var earlier := ReadTimes(rows[..n]);
      if earlier.Err? then Err(earlier.error)
      else if IsTimestamp(rows[n][0]) then Ok(earlier.value + [Seconds(rows[n][0].time)])
      else Err(MalformedTime(n))
  }

  /** Fails at the first stage whose finish time cannot be parsed. */
  function CheckFinishTimes(stages: seq<StageEntry>): (r: Result<seq<StageEntry>>)
    ensures r.Ok? <==> forall k :: 0 <= k < |stages| ==> ValidFinish(stages[k].finish)
    ensures r.Ok? ==> r.value == stages
    ensures r.Err? ==> r.error.MalformedFinishTime? && r.error.stage < |stages|
                       && !ValidFinish(stages[r.error.stage].finish)
                       && forall k :: 0 <= k < r.error.stage ==> ValidFinish(stages[k].finish)
  {
    if stages == [] then Ok([])
    else
      var n := |stages| - 1;
      var earlier := CheckFinishTimes(stages[..n]);
      if earlier.Err? then Err(earlier.error)
      else if ValidFinish(stages[n].finish) then Ok(stages)
      else Err(MalformedFinishTime(n))
  }

  /** A measurement column converted to numbers; fails if the column is not in
      the table or at the first cell that is not a number. */
  function ReadColumn(t: Table<TraceCell>, column: nat): (r: Result<seq<real>>)
    requires Rectangular(t)
    ensures column >= t.width ==> r == Err(MissingColumn(column))
    ensures r.Ok? <==> column < t.width && forall i :: 0 <= i < |t.rows| ==> t.rows[i][column].NumberCell?
    ensures r.Ok? ==> |r.value| == |t.rows|
                      && forall i :: 0 <= i < |t.rows| ==> r.value[i] == t.rows[i][column].value
    ensures r.Err? && column < t.width ==>
              r.error.NonNumeric? && r.error.column == column && r.error.row < |t.rows|
              && !t.rows[r.error.row][column].NumberCell?
  {
    if column >= t.width then Err(MissingColumn(column))
    else ReadCells(t.rows, column)
  }

  function ReadCells(rows: seq<seq<TraceCell>>, column: nat): (r: Result<seq<real>>)
    requires forall i :: 0 <= i < |rows| ==> column < |rows[i]|
    ensures r.Ok? <==> forall i :: 0 <= i < |rows| ==> rows[i][column].NumberCell?
    ensures r.Ok? ==> |r.value| == |rows|
                      && forall i :: 0 <= i < |rows| ==> r.value[i] == rows[i][column].value
    ensures r.Err? ==> r.error.NonNumeric? && r.error.column == column && r.error.row < |rows|
                       && !rows[r.error.row][column].NumberCell?
                       && forall i :: 0 <= i < r.error.row ==> rows[i][column].NumberCell?
  {
    if rows == [] then Ok([])
    else
      var n := |rows| - 1;
      var earlier := ReadCells(rows[..n], column);
      if earlier.Err? then Err(earlier.error)
      else if rows[n][column].NumberCell? then Ok(earlier.value + [rows[n][column].value])
      else Err(NonNumeric(n, column))
  }

  /** The two measurement columns side by side. */
  function Samples(hr: seq<real>, vo2: seq<real>): (r: seq<Sample>)
    requires |hr| == |vo2|
    ensures |r| == |hr|
    ensures forall i :: 0 <= i < |r| ==> r[i] == Sample(hr[i], vo2[i])
  {
    seq(|hr|, i requires 0 <= i < |hr| => Sample(hr[i], vo2[i]))
  }

  /** The per-stage summary of labelled samples, merged with the stage table;
      hrFirst tells whether the heart-rate column precedes the oxygen-uptake
      column in the trace. */
  function Summarise(samples: seq<Sample>, labels: seq<nat>, stages: seq<StageEntry>, hrFirst: bool)
    : seq<seq<Cell>>
    requires |labels| <= |samples|
  {
    Merge(Summaries(samples, labels, |stages|), stages, hrFirst)
  }

  /** The whole routine as a function of its inputs: the raw trace, the stage
      table, and the positions (in the pruned trace) of the heart-rate and
      oxygen-uptake columns. Row j of the trace is labelled with the j-th entry
      of the stage list, as a column-wise concatenation aligns them. */
  function CleanTableSpec(trace: Table<TraceCell>, stages: seq<StageEntry>, hrColumn: nat, vo2Column: nat)
    : (r: Result<seq<seq<Cell>>>)
    requires Rectangular(trace)
    ensures |trace.rows| < 2 ==> r == Err(MissingMetadataRows)
    ensures |trace.rows| >= 2 && trace.width < MinWidth ==> r == Err(TooFewColumns(trace.width))
    ensures r.Ok? ==> stages != []
                      && (forall i :: 0 <= i < |r.value| ==> CarriesStage(r.value[i], stages, RowStage(r.value[i])))
                      && (forall i, j :: 0 <= i < j < |r.value| ==> RowStage(r.value[i]) < RowStage(r.value[j]))
  {
    var pruned :- PruneTrace(trace);
    FromPruned(pruned, stages, hrColumn, vo2Column)
  }

  /** The routine after pruning. */
  function FromPruned(pruned: Table<TraceCell>, stages: seq<StageEntry>, hrColumn: nat, vo2Column: nat)
    : (r: Result<seq<seq<Cell>>>)
    requires Rectangular(pruned) && pruned.width > 0
    ensures r.Ok? ==> stages != []
                      && (forall i :: 0 <= i < |r.value| ==> CarriesStage(r.value[i], stages, RowStage(r.value[i])))
                      && (forall i, j :: 0 <= i < j < |r.value| ==> RowStage(r.value[i]) < RowStage(r.value[j]))
  {
    var times :- ReadTimes(pruned.rows);
    var checked :- if times == [] then Ok(stages) else CheckFinishTimes(stages);
    var scan :- if stages == [] then Err(EmptyStageTable) else Resolve(stages, times);
    var hr :- ReadColumn(pruned, hrColumn);
    var vo2 :- ReadColumn(pruned, vo2Column);
    var samples := Samples(hr, vo2);
    ScanKeepsEarlySamples(stages, times);
    SummariseRows(samples, scan.stageRows, stages, hrColumn <= vo2Column);
    Ok(Summarise(samples, scan.stageRows, stages, hrColumn <= vo2Column))
  }

  /** The stage number a result row starts with (presentation column 0). */
  function RowStage(row: seq<Cell>): nat {
    if |row| > 0 && row[0].StageNumber? then row[0].stage else 0
  }

  /** Row carries stage s's own fields from the stage table in presentation
      columns 0, 1, 4 and 5, and two means in columns 2 and 3. */
  predicate CarriesStage(row: seq<Cell>, stages: seq<StageEntry>, s: nat) {
    s < |stages| && |row| == 6
    && row[0] == StageNumber(s)
    && row[1] == Number(stages[s].velocity)
    && row[2].Number? && row[3].Number?
    && row[4] == Number(stages[s].bloodLactate)
    && row[5] == Finish(stages[s].finish)
  }

  /** Result rows: one per stage with a non-empty kept window, by strictly
      increasing stage, each carrying the stage table's row for its own stage. */
  lemma SummariseRows(samples: seq<Sample>, labels: seq<nat>, stages: seq<StageEntry>, hrFirst: bool)
    requires |labels| <= |samples|
    ensures var rows := Summarise(samples, labels, stages, hrFirst);
            (forall i :: 0 <= i < |rows| ==> CarriesStage(rows[i], stages, RowStage(rows[i])))
            && (forall i, j :: 0 <= i < j < |rows| ==> RowStage(rows[i]) < RowStage(rows[j]))
            && (forall s: nat :: (exists i :: 0 <= i < |rows| && RowStage(rows[i]) == s)
                  <==> s < |stages| && |Group(samples, labels, s)| >= 4)
  {
    SummariseRowStages(samples, labels, stages, hrFirst);
    SummariseRowsPresence(samples, labels, stages, hrFirst);
  }

  /** Row i of the result starts with the stage of the i-th stage mean and
      carries that stage's fields. */
  lemma SummariseRowStages(samples: seq<Sample>, labels: seq<nat>, stages: seq<StageEntry>, hrFirst: bool)
    requires |labels| <= |samples|
    ensures var means := Summaries(samples, labels, |stages|);
            var rows := Summarise(samples, labels, stages, hrFirst);
            |rows| == |means|
            && (forall i :: 0 <= i < |rows| ==>
                  RowStage(rows[i]) == means[i].stage && CarriesStage(rows[i], stages, RowStage(rows[i])))
            && (forall i, j :: 0 <= i < j < |rows| ==> RowStage(rows[i]) < RowStage(rows[j]))
  {
    var means := Summaries(samples, labels, |stages|);
    var rows := Summarise(samples, labels, stages, hrFirst);
    SummariesOrdered(samples, labels, |stages|);
    forall i | 0 <= i < |rows| ensures RowStage(rows[i]) == means[i].stage && CarriesStage(rows[i], stages, means[i].stage) {
      MergeRows(means, stages, hrFirst, i);
    }
    forall i, j | 0 <= i < j < |rows| ensures RowStage(rows[i]) < RowStage(rows[j]) {
      assert StagesOf(means)[i] < StagesOf(means)[j];
    }
  }

  /** Row i of the result starts with the i-th stage that keeps rows. */
  lemma RowStagesFollowSteadyStages(samples: seq<Sample>, labels: seq<nat>, stages: seq<StageEntry>, hrFirst: bool)
    requires |labels| <= |samples|
    ensures var ss := SteadyStages(labels, |stages|);
            var rows := Summarise(samples, labels, stages, hrFirst);
            |rows| == |ss| && forall i :: 0 <= i < |rows| ==> RowStage(rows[i]) == ss[i]
  {
    var means := Summaries(samples, labels, |stages|);
    var rows := Summarise(samples, labels, stages, hrFirst);
    SummariesStages(samples, labels, |stages|);
    forall i | 0 <= i < |rows| ensures RowStage(rows[i]) == StagesOf(means)[i] {
      MergeRows(means, stages, hrFirst, i);
    }
  }

  lemma SummariseRowsPresence(samples: seq<Sample>, labels: seq<nat>, stages: seq<StageEntry>, hrFirst: bool)
    requires |labels| <= |samples|
    ensures var rows := Summarise(samples, labels, stages, hrFirst);
            forall s: nat :: (exists i :: 0 <= i < |rows| && RowStage(rows[i]) == s)
                  <==> s < |stages| && |Group(samples, labels, s)| >= 4
  {
    var ss := SteadyStages(labels, |stages|);
    var rows := Summarise(samples, labels, stages, hrFirst);
    RowStagesFollowSteadyStages(samples, labels, stages, hrFirst);
    forall s: nat ensures (exists i :: 0 <= i < |rows| && RowStage(rows[i]) == s)
                          <==> s < |stages| && |Group(samples, labels, s)| >= 4 {
      SteadyStagesPresence(labels, |stages|, s);
      if s in ss {
        var i :| 0 <= i < |ss| && ss[i] == s;
        assert RowStage(rows[i]) == s;
      }
    }
  }

  /** The routine, as the source runs it: the stage-assignment scan is the
      in-place loop of AssignStages; the other steps are table expressions. */
  method CleanTableFunc(trace: Table<TraceCell>, stages: seq<StageEntry>, hrColumn: nat, vo2Column: nat)
    returns (r: Result<seq<seq<Cell>>>)
    requires Rectangular(trace)
    ensures r == CleanTableSpec(trace, stages, hrColumn, vo2Column)
    ensures r.Ok? ==> stages != []
                      && (forall i :: 0 <= i < |r.value| ==> CarriesStage(r.value[i], stages, RowStage(r.value[i])))
                      && (forall i, j :: 0 <= i < j < |r.value| ==> RowStage(r.value[i]) < RowStage(r.value[j]))
  {
    var pruned :- PruneTrace(trace);
    var times :- ReadTimes(pruned.rows);
    if times != [] {
      var checked :- CheckFinishTimes(stages);
    }
    if stages == [] {
      return Err(EmptyStageTable);
    }
    var resolved := AssignStages(stages, times);
    var scan := resolved.value;
    var hr :- ReadColumn(pruned, hrColumn);
    var vo2 :- ReadColumn(pruned, vo2Column);
    var samples := Samples(hr, vo2);
    ScanKeepsEarlySamples(stages, times);
    SummariseRows(samples, scan.stageRows, stages, hrColumn <= vo2Column);
    r := Ok(Summarise(samples, scan.stageRows, stages, hrColumn <= vo2Column));
  }

  /** Window exclusion: with the trace in time order, the rows the stage list
      labels (the first |stage list| rows, as the concatenation aligns them) are
      exactly the samples earlier than the last stage's finish time. */
  lemma LabelledRowsAreEarly(stages: seq<StageEntry>, times: seq<nat>)
    requires |stages| > 0
    requires forall p, q :: 0 <= p < q < |times| ==> times[p] <= times[q]
    ensures var labels := Scan(stages, times).stageRows;
            |labels| <= |times|
            && forall p :: 0 <= p < |times| ==> (p < |labels| <==> times[p] < Cutoff(stages))
  {
    var kp := EarlyPositions(times, Cutoff(stages));
    ScanKeepsEarlySamples(stages, times);
    SortedTraceKeepsPrefix(times, Cutoff(stages));
    forall p | 0 <= p < |times| ensures p < |kp| <==> times[p] < Cutoff(stages) {
      if p < |kp| {
        assert kp[p] == p && p in kp;
      }
      if times[p] < Cutoff(stages) {
        assert p in kp;
        var j :| 0 <= j < |kp| && kp[j] == p;
      }
    }
  }

  /** Stage finish times lie in the first hour of the parsing day, so no trace
      sample stamped 01:00:00 or later is ever assigned a stage. */
  lemma SamplesAfterFirstHourExcluded(stages: seq<StageEntry>, times: seq<nat>, p: nat)
    requires |stages| > 0 && ValidFinish(stages[|stages| - 1].finish)
    requires p < |times| && times[p] >= 3600
    ensures p !in EarlyPositions(times, Cutoff(stages))
  {
    FinishWithinFirstHour(stages[|stages| - 1].finish);
    EarlyPositionsExact(times, Cutoff(stages));
  }
}
