/** The result merger: joins each stage's means with that stage's row of the
    operator's table and puts the six columns in presentation order. */
module Merger {
  import opened Clock
  import opened Resolver
  import opened Aggregator

  /** One cell of the result table. Missing is what a join leaves when the
      stage table has no row for a stage. */
  datatype Cell = Number(value: real) | StageNumber(stage: nat) | Finish(time: FinishTime) | Missing

  /** Column names of a joined row: the two means in the order their columns
      have in the trace (heart rate first when hrFirst), then the stage table's
      four columns (its index turned into the Stage column, then its three
      fields). */
  function JoinedHeader(hrFirst: bool): (r: seq<string>)
    ensures |r| == 6
  {
    (if hrFirst then ["HR", "VO2/Kg"] else ["VO2/Kg", "HR"])
    + ["Stage", "Blood Lactate", "Velocity (km/h)", "Stage Finish Time"]
  }

  /** The positions of the joined columns, in presentation order. */
  const ColumnOrder: seq<nat> := [2, 4, 1, 0, 3, 5]

  /** The positions that undo ColumnOrder. */
  const RestoreOrder: seq<nat> := [3, 2, 0, 4, 1, 5]

  /** The cells of row at the given positions, in the positions' order. */
  function Reorder<T>(row: seq<T>, order: seq<nat>): (r: seq<T>)
    requires forall i :: 0 <= i < |order| ==> order[i] < |row|
    ensures |r| == |order|
    ensures forall i :: 0 <= i < |order| ==> r[i] == row[order[i]]
  {
    seq(|order|, i requires 0 <= i < |order| => row[order[i]])
  }

  /** The column order is a bijection on the six joined columns: it names each
      of them exactly once, and RestoreOrder undoes it in either direction. */
  lemma ColumnOrderIsBijection<T>(row: seq<T>)
    requires |row| == 6
    ensures |ColumnOrder| == 6
    ensures forall c :: 0 <= c < 6 ==> c in ColumnOrder
    ensures forall i, j :: 0 <= i < j < 6 ==> ColumnOrder[i] != ColumnOrder[j]
    ensures Reorder(Reorder(row, ColumnOrder), RestoreOrder) == row
    ensures Reorder(Reorder(row, RestoreOrder), ColumnOrder) == row
  {
    RestoreUndoesColumnOrder(row);
    ColumnOrderUndoesRestore(row);
    assert ColumnOrder[0] == 2 && ColumnOrder[3] == 0;
  }

  lemma RestoreUndoesColumnOrder<T>(row: seq<T>)
    requires |row| == 6
    ensures Reorder(Reorder(row, ColumnOrder), RestoreOrder) == row
  {
    var back := Reorder(Reorder(row, ColumnOrder), RestoreOrder);
    assert back[0] == row[0] && back[1] == row[1] && back[2] == row[2];
    assert back[3] == row[3] && back[4] == row[4] && back[5] == row[5];
  }

  lemma ColumnOrderUndoesRestore<T>(row: seq<T>)
    requires |row| == 6
    ensures Reorder(Reorder(row, RestoreOrder), ColumnOrder) == row
  {
    var back := Reorder(Reorder(row, RestoreOrder), ColumnOrder);
    assert back[0] == row[0] && back[1] == row[1] && back[2] == row[2];
    assert back[3] == row[3] && back[4] == row[4] && back[5] == row[5];
  }

  /** The presentation order of the column names: the mean of the later trace
      column comes before the mean of the earlier one. */
  lemma PresentationHeader(hrFirst: bool)
    ensures Reorder(JoinedHeader(hrFirst), ColumnOrder)
            == ["Stage", "Velocity (km/h)"]
               + (if hrFirst then ["VO2/Kg", "HR"] else ["HR", "VO2/Kg"])
               + ["Blood Lactate", "Stage Finish Time"]
  {
  }

  /** A stage's means, in the order their columns have in the trace, joined by
      stage number with that stage's row of the operator's table (row index ==
      stage number). */
  function Joined(m: StageMean, stages: seq<StageEntry>, hrFirst: bool): (r: seq<Cell>)
    ensures |r| == 6
  {
    (if hrFirst then [Number(m.hr), Number(m.vo2)] else [Number(m.vo2), Number(m.hr)])
    + if m.stage < |stages| then
        var e := stages[m.stage];
        [StageNumber(m.stage), Number(e.bloodLactate), Number(e.velocity), Finish(e.finish)]
      else [Missing, Missing, Missing, Missing]
  }

  /** The result table: one joined, reordered row per stage mean. */
  function Merge(means: seq<StageMean>, stages: seq<StageEntry>, hrFirst: bool): (r: seq<seq<Cell>>)
    ensures |r| == |means|
  {
    seq(|means|, i requires 0 <= i < |means| => Reorder(Joined(means[i], stages, hrFirst), ColumnOrder))
  }

  /** Each result row is, in presentation order, the stage number, its velocity,
      the mean of the later measurement column, the mean of the earlier one,
      its blood lactate and its finish time; reordering back gives the joined
      row. */
  lemma MergeRows(means: seq<StageMean>, stages: seq<StageEntry>, hrFirst: bool, i: nat)
    requires i < |means| && means[i].stage < |stages|
    ensures var m := means[i];
            var e := stages[m.stage];
            Merge(means, stages, hrFirst)[i]
              == [StageNumber(m.stage), Number(e.velocity),
                  Number(if hrFirst then m.vo2 else m.hr), Number(if hrFirst then m.hr else m.vo2),
                  Number(e.bloodLactate), Finish(e.finish)]
    ensures Reorder(Merge(means, stages, hrFirst)[i], RestoreOrder) == Joined(means[i], stages, hrFirst)
  {
    var row := Merge(means, stages, hrFirst)[i];
    assert row == Reorder(Joined(means[i], stages, hrFirst), ColumnOrder);
    ColumnOrderIsBijection(Joined(means[i], stages, hrFirst));
  }
}
