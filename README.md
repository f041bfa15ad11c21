# Blood-lactate test table cleaning, modelled in Dafny

This project models `cleanTableFunc`, the routine of the blood-lactate
dashboard that turns an incremental exercise test into a per-stage table.
The routine takes two inputs. The first is a dense, per-second physiological
trace with an `HH:MM:SS` wall-clock timestamp, heart rate, oxygen uptake per
kilogram and many other columns. The second is the operator's stage table:
blood lactate, velocity and an `MM:SS` finish time for each stage. The
routine then does five things:

1. **Column pruner** (`pruner.dfy`, module `Pruner`). It drops the two
   metadata rows and renumbers the rest from 0. It drops 76 fixed column
   positions, written here as a named list of ranges (`DroppedSpans`). The
   kept columns stay in their original order, and the timestamp (raw column
   9) becomes the first one.
2. **Stage boundary resolver** (`resolver.dfy`, module `Resolver`). A single
   scan moves a cursor through the stage table. A sample passes only if it is
   strictly earlier than the last stage's finish time. A passing sample stays
   in the current stage when its time is at or before that stage's finish
   time. Otherwise the cursor moves on by exactly one stage and the sample's
   position is recorded as a crossing. The stage number, velocity and blood
   lactate of the current stage are appended to three parallel lists.
   `AssignStages` is that loop, written imperatively. `Scan` is the same
   scan written as a function, and the lemmas are stated about `Scan`.
3. **Steady-state aggregator** (`aggregator.dfy`, module `Aggregator`). Rows
   are grouped by stage. Each group keeps its last `33*n/100` rows in their
   original order, and the two measurement columns are averaged over what it
   keeps. A group of three or fewer rows keeps nothing and gets no result row.
4. **Result merger** (`merger.dfy`, module `Merger`). Each stage's means are
   joined with the stage table's row for that stage. The joined columns are
   then put in the fixed order `[2, 4, 1, 0, 3, 5]`.
5. **The routine end to end** (`pipeline.dfy`, module `CleanTable`). Here the
   timestamp and measurement cells are read and the steps are chained, with
   every failure point turned into an `Outcome.Result` error.

Times are natural numbers of seconds. Both parsers put their result on the
same default day, so a trace time `H:M:S` compares as `H*3600+M*60+S` and a
finish time `M:S` as `M*60+S`. `Clock.EarlierIffFewerSeconds` proves that
this matches the field-by-field comparison of the parsed times.

Behaviour of the code worth knowing:

- **Column order.** The result columns are Stage, Velocity, the mean of the
  later of the two measurement columns, the mean of the earlier one, Blood
  Lactate and Stage Finish Time. With heart rate before oxygen uptake in the
  trace, that is Stage, Velocity, VO2/Kg, HR, Blood Lactate, Stage Finish Time
  (`Merger.PresentationHeader`).
- **First stage.** If the first early sample is already past stage 0's finish
  time, it is assigned stage 1 (`Resolver.ScanCursorProgress`: the first
  recorded stage is 0 or 1).
- **Cursor bound.** The cursor never passes the last stage, so the guard at
  app.py:350 always holds. This needs no ordering of the finish times: the
  cutoff test alone excludes every sample that would push the cursor past the
  end (`Resolver.Step`).
- **Empty windows.** A stage whose kept window is empty has no result row
  (`Aggregator.SummariesPresence`).
- **Time within the assigned stage.** A sample that moves the cursor moves it
  by one stage only, so it can be assigned a stage whose finish time it
  exceeds, when the previous stage's window held no sample
  (`Resolver.SkippedStageExample`).
- **Equal to the last finish time.** A sample whose time equals the last
  stage's finish time is excluded, because the cutoff test is strict.
- **Time base.** Every finish time lies in the first hour of the parsing day,
  so a trace sample stamped 01:00:00 or later is never assigned a stage
  (`CleanTable.SamplesAfterFirstHourExcluded`).

## Model

| member | source | states |
|---|---|---|
| `Clock.EarlierIffFewerSeconds` | app.py:347-352 | comparing two parsed times of day is the same as comparing their seconds since midnight, for both `<` and `<=` |
| `Clock.FinishWithinFirstHour` | app.py:348-349 | a parsed `MM:SS` finish time is a valid time of day below 3600 seconds |
| `Clock.LateTimestampNeverBeforeFinish` | app.py:347-349 | a trace time at or after 01:00:00 is never earlier than a finish time |
| `Pruner.PositionsMembership` | app.py:328-329 | the position list built from the ranges holds exactly the numbers some range covers |
| `Pruner.PositionsAscending` | app.py:328-329 | ordered ranges give strictly increasing positions |
| `Pruner.DroppedFacts` | app.py:328-329 | the dropped list has 76 strictly increasing positions, all below 128; positions 0-8 are dropped and 9 (the timestamp) is not |
| `Pruner.Dropped` | app.py:328-331 | the dropped positions satisfy that shape |
| `Pruner.KeptMembership` | app.py:331 | a column below the width survives exactly when it is not dropped |
| `Pruner.KeptCount` | app.py:331 | kept and dropped positions below n add up to n |
| `Pruner.Kept` | app.py:331 | every kept position is below the width |
| `Pruner.KeptFacts` | app.py:328-331 | a table of at least 128 columns keeps width-76 columns, in increasing original order, exactly the undropped ones, the first being the timestamp column |
| `Pruner.PruneRows` | app.py:323-331 | the pruned table has rows-2 rows of width-76 cells; cell (i, j) is raw cell (i+2, j-th kept column); column 0 is raw column 9 |
| `Pruner.PruneTrace` | app.py:323-331 | fails with MissingMetadataRows below two rows and with TooFewColumns below 128 columns, otherwise gives the pruned table |
| `Resolver.Cutoff` | app.py:347-349 | when the last stage's finish time parses, the cutoff lies below 3600 seconds |
| `Resolver.Resolve` | app.py:346-361 | fails with EmptyStageTable exactly when the stage table is empty and the trace has samples (the IndexError of `iloc[-1]`); an empty trace gives empty lists; otherwise the cursor stays in the table |
| `Resolver.Step` | app.py:347-361 | one iteration keeps the cursor inside the stage table |
| `Resolver.Scan` | app.py:342-361 | after any number of samples the cursor still indexes a stage row |
| `Resolver.EarlyPositionsExact` | app.py:347-349 | the early positions are, in trace order, exactly the samples strictly earlier than the cutoff |
| `Resolver.StepKeepsInv` | app.py:347-361 | each iteration preserves every scan guarantee (lists, stays, crossings) |
| `Resolver.ScanEstablishesInv` | app.py:342-361 | all scan guarantees hold after the whole trace |
| `Resolver.ScanKeepsEarlySamples` | app.py:346-361 | the three lists each have one entry per sample strictly earlier than the last finish time, and none for later samples |
| `Resolver.ScanCursorProgress` | app.py:342-345 | recorded stages start at 0 or 1, never decrease and step by at most 1; the cursor ends on the last recorded stage (0 if none) inside the table; one crossing per move |
| `Resolver.ScanCopiesStageFields` | app.py:353-361 | entry j of the velocity and blood-lactate lists is the velocity and blood lactate of the stage row entry j of the stage list names |
| `Resolver.ScanAssignsByBoundary` | app.py:351-358 | an early sample stays in the current stage iff its time is at or before that stage's finish time (inclusive); otherwise it moves to the next stage and is the recorded crossing |
| `Resolver.SortedTraceKeepsPrefix` | app.py:347-349 | on a trace in time order the early samples are a prefix of the trace |
| `Resolver.SkippedStageExample` | app.py:356-361 | a sample can be assigned a stage whose finish time it exceeds |
| `Resolver.AssignStages` | app.py:342-361 | the loop yields exactly the scan's state, errs iff the stage table is empty while there are samples, and meets all scan guarantees |
| `Aggregator.GroupPositions` | app.py:376 | every position in a stage's group is a labelled row |
| `Aggregator.Group` | app.py:376 | a stage's group has one sample per position in its position list |
| `Aggregator.GroupPositionsExact` | app.py:376-377 | a stage's group is exactly the labelled rows with that stage, in row order |
| `Aggregator.UnusedStageHasEmptyGroup` | app.py:376 | a stage that labels no row has no rows |
| `Aggregator.KeepCount` | app.py:376-377 | at most a third of a group is kept, and nothing exactly when the group has at most 3 rows |
| `Aggregator.SteadyTail` | app.py:376-377 | the kept rows are the last KeepCount(n) rows of the group, in original order |
| `Aggregator.Mean` | app.py:378 | the mean times the number of values is their sum |
| `Aggregator.StageMeanOf` | app.py:376-378 | the means of stage s are labelled with s |
| `Aggregator.MeanBetween` | app.py:378 | a mean lies between any bounds of the averaged values |
| `Aggregator.MeanOfConstant` | app.py:378 | the mean of a constant column is that constant |
| `Aggregator.SteadyStages` | app.py:376-378 | the stages listed are below the table size and each keeps at least one row |
| `Aggregator.SteadyStagesIncreasing` | app.py:378 | the groups come out by strictly increasing stage |
| `Aggregator.SteadyStagesPresence` | app.py:376-378 | a stage is listed iff it is below the table size and its group has more than three rows |
| `Aggregator.Summaries` | app.py:376-378 | one row of means per listed stage |
| `Aggregator.SummariesOrdered` | app.py:376-378 | per-stage rows come by strictly increasing stage; each is the mean over its stage's kept rows |
| `Aggregator.SummariesPresence` | app.py:376-378 | a stage has a row iff it is below the table size and its group has at least 4 rows |
| `Merger.ColumnOrderIsBijection` | app.py:384-385 | `[2,4,1,0,3,5]` names each of the six joined columns once and is undone by `[3,2,0,4,1,5]` |
| `Merger.PresentationHeader` | app.py:381-385 | the result columns are Stage, Velocity (km/h), the later measurement column's name, the earlier one's, Blood Lactate, Stage Finish Time (VO2/Kg then HR when HR comes first in the trace) |
| `Merger.Joined` | app.py:381-382 | a joined row has six cells: the two means in trace column order, then the stage's number and fields (all missing when the stage table has no such row) |
| `Merger.Merge` | app.py:381-385 | one result row per stage mean, in the same order |
| `Merger.MergeRows` | app.py:381-385 | the result row of stage s is its number, its velocity, the later column's mean, the earlier column's mean, its blood lactate and its finish time, and reordering back gives the joined row |
| `CleanTable.ReadTimes` | app.py:347 | gives every row's time in seconds, or fails at the first row without a valid `HH:MM:SS` time |
| `CleanTable.CheckFinishTimes` | app.py:348-352 | succeeds iff every finish time is a valid `MM:SS`, otherwise names the first bad stage |
| `CleanTable.ReadColumn` | app.py:373-374 | gives a measurement column as numbers; fails if the column is missing or at a non-numeric cell |
| `CleanTable.SummariseRows` | app.py:376-385 | result rows come by strictly increasing stage, each carrying its own stage's fields; a stage has a row iff its group has at least 4 rows |
| `CleanTable.CleanTableSpec` | app.py:317-389 | fails with MissingMetadataRows below two rows and TooFewColumns below 128 columns; on success the stage table is non-empty and the rows come by increasing stage, each carrying its own stage's fields |
| `CleanTable.CleanTableFunc` | app.py:317-389 | the routine equals its functional specification; on success the stage table is non-empty and the rows are by increasing stage, each carrying its own stage's fields |
| `CleanTable.LabelledRowsAreEarly` | app.py:363-370 | on a trace in time order, the rows the stage list labels are exactly the samples earlier than the cutoff |
| `CleanTable.SamplesAfterFirstHourExcluded` | app.py:347-349 | no sample stamped 01:00:00 or later is kept |

## Left out

- User interface: the layout, input widgets, `add_row` and `update_plot` callbacks, and plotting (`col`, `figFunc`).
- Upload decoding: base64, CSV or Excel reading, and the printed exceptions. The model starts from a table of cells.
- Text parsing: the `HH:MM:SS` and `MM:SS` parsers are not modelled. Cells hold parsed times, and a validity predicate stands for a successful parse.
- Column types: `pd.to_numeric` and the numeric-only mean are not modelled in general. HR and VO2/Kg are assumed to be the only numeric trace columns, so they are the two columns the join takes, in their trace order. Their positions in the pruned trace are parameters; the source looks them up by name.
- The velocity and blood-lactate columns added to the per-sample table are averaged and then dropped by the source. The model does not carry them.
- Floating point: means are exact real averages, and the factor `0.33` becomes the integer `33*n/100`.
- Blank stage fields: velocity and blood lactate are always reals. The model has no blank or NaN values.
- Global variables and `print` calls: every intermediate result is passed explicitly.
- CleanTable.CheckFinishTimes: it checks every finish time. The source parses only the last one and those the cursor reaches. Also, when several errors apply, the model may report a different one than the source.
- Idempotence: the model is a set of functions plus one deterministic method, so re-running on equal inputs trivially gives equal results; no lemma states it.
- Unsorted traces: the concatenation pairs the j-th label with the j-th row. That is the j-th early sample only when the trace is in time order (`LabelledRowsAreEarly`). The model keeps the source's pairing and states no property for unsorted traces.
