/** The stage boundary resolver: one scan over the trace timestamps that moves
    a cursor through the operator's stage table and records, for every sample
    earlier than the last stage's finish time, the stage it is assigned to. */
module Resolver {
  import opened Sequences
  import opened Outcome
  import opened Clock

  /** One operator-entered stage row. Its stage number is its row index, the
      table's index having been turned into the Stage column. Blood lactate and
      velocity are only ever copied, never inspected. */
  datatype StageEntry = StageEntry(bloodLactate: real, velocity: real, finish: FinishTime)

  /** The stage's finish time as seconds on the parsing day. */
  function Boundary(e: StageEntry): nat {
    FinishSeconds(e.finish)
  }

  /** The finish time of the last stage: samples at or after it are discarded. */
  function Cutoff(stages: seq<StageEntry>): (c: nat)
    requires |stages| > 0
    ensures ValidFinish(stages[|stages| - 1].finish) ==> c < 3600
  {
    Boundary(stages[|stages| - 1])
  }

  /** The scan's variables: the cursor, the three parallel lists it appends to
      (stage, velocity, blood lactate) and the positions where the cursor moved. */
  datatype ScanState = ScanState(
    cursor: nat,
    stageRows: seq<nat>,
    velocityRows: seq<real>,
    lactateRows: seq<real>,
    changeIndex: seq<nat>)

  function Start(): ScanState {
    ScanState(0, [], [], [], [])
  }

  /** Appends the fields of stage row x to the three parallel lists. */
  function Record(st: ScanState, stages: seq<StageEntry>, x: nat): ScanState
    requires x < |stages|
  {
    st.(stageRows := st.stageRows + [x],
        velocityRows := st.velocityRows + [stages[x].velocity],
        lactateRows := st.lactateRows + [stages[x].bloodLactate])
  }

  /** One iteration of the scan, for the sample at position i with time t. */
  function Step(stages: seq<StageEntry>, st: ScanState, i: nat, t: nat): (r: ScanState)
    requires |stages| > 0 && st.cursor < |stages|
    ensures r.cursor < |stages|
  {
    if t < Cutoff(stages) then
      if st.cursor + 1 <= |stages| then
        if t <= Boundary(stages[st.cursor]) then
          Record(st, stages, st.cursor)
        else
          Record(st.(cursor := st.cursor + 1, changeIndex := st.changeIndex + [i]), stages, st.cursor + 1)
      else st
    else st
  }

  /** The state after scanning every sample of times, in order. The cursor
      stays within the table because a sample that passes the cutoff cannot lie
      beyond the last stage's boundary. */
  function Scan(stages: seq<StageEntry>, times: seq<nat>): (r: ScanState)
    requires |stages| > 0
    ensures r.cursor < |stages|
  {
    if times == [] then Start()
    else
      var n := |times| - 1;
      Step(stages, Scan(stages, times[..n]), n, times[n])
  }

  /** The scan's outcome: reading the last stage row of an empty table fails as
      soon as there is a sample to compare. */
  function Resolve(stages: seq<StageEntry>, times: seq<nat>): (r: Result<ScanState>)
    ensures r.Err? <==> stages == [] && times != []
    ensures r.Err? ==> r.error == EmptyStageTable
    ensures r.Ok? && times == [] ==> r.value.stageRows == [] && r.value.changeIndex == []
    ensures r.Ok? && stages != [] ==> r.value.cursor < |stages|
  {
    if times == [] then Ok(Start())
    else if stages == [] then Err(EmptyStageTable)
    else Ok(Scan(stages, times))
  }

  /** Positions of the samples earlier than the cutoff, in trace order. */
  function EarlyPositions(times: seq<nat>, cutoff: nat): (r: seq<nat>)
    ensures |r| <= |times|
    ensures forall j :: 0 <= j < |r| ==> r[j] < |times|
  {
    if times == [] then []
    else
      var n := |times| - 1;
      EarlyPositions(times[..n], cutoff) + (if times[n] < cutoff then [n] else [])
  }

  /** The stage of the sample before the j-th recorded one (0 for the first). */
  function Previous(rows: seq<nat>, j: nat): nat
    requires j <= |rows|
  {
    if j == 0 then 0 else rows[j - 1]
  }

  /** What a scan of `times` guarantees about its state: the four parts below,
      over the positions of the samples earlier than the cutoff. */
  predicate ScanInv(stages: seq<StageEntry>, times: seq<nat>, st: ScanState)
    requires |stages| > 0
  {
    var kp := EarlyPositions(times, Cutoff(stages));
    ListsInv(stages, kp, st) && StaysInv(stages, times, kp, st)
    && MovesInv(stages, kp, st) && CrossingsInv(stages, times, st)
  }

  /** One entry per early sample in each of the three lists; each entry copies
      the fields of the stage row it names; the stage starts at 0 and stays or
      moves on by exactly one; the cursor is the last stage recorded and indexes
      a stage row, and one crossing was recorded per move. */
  predicate ListsInv(stages: seq<StageEntry>, kp: seq<nat>, st: ScanState) {
    var n := |kp|;
    var rows := st.stageRows;
    st.cursor < |stages|
    && |st.changeIndex| == st.cursor
    && |rows| == n && |st.velocityRows| == n && |st.lactateRows| == n
    && (forall j :: 0 <= j < n ==> rows[j] <= st.cursor)
    && (forall j :: 0 <= j < n ==>
          st.velocityRows[j] == stages[rows[j]].velocity
          && st.lactateRows[j] == stages[rows[j]].bloodLactate)
    && (forall j {:trigger Previous(rows, j)} :: 0 <= j < n ==>
          rows[j] == Previous(rows, j) || rows[j] == Previous(rows, j) + 1)
    && st.cursor == Previous(rows, n)
  }

  /** A sample that leaves the stage unchanged is no later than that stage's
      finish time. */
  predicate StaysInv(stages: seq<StageEntry>, times: seq<nat>, kp: seq<nat>, st: ScanState)
    requires ListsInv(stages, kp, st)
  {
    var rows := st.stageRows;
    forall j {:trigger Previous(rows, j)} :: 0 <= j < |kp| && rows[j] == Previous(rows, j) ==>
      kp[j] < |times| && times[kp[j]] <= Boundary(stages[rows[j]])
  }

  /** A sample that moves the stage on is the recorded crossing into it. */
  predicate MovesInv(stages: seq<StageEntry>, kp: seq<nat>, st: ScanState)
    requires ListsInv(stages, kp, st)
  {
    var rows := st.stageRows;
    forall j {:trigger Previous(rows, j)} :: 0 <= j < |kp| && rows[j] == Previous(rows, j) + 1 ==>
      st.changeIndex[Previous(rows, j)] == kp[j]
  }

  /** The crossings are increasing sample positions, each after the finish time
      of the stage it leaves and before the cutoff. */
  predicate CrossingsInv(stages: seq<StageEntry>, times: seq<nat>, st: ScanState)
    requires |stages| > 0
  {
    StrictlyIncreasing(st.changeIndex)
    && (forall k :: 0 <= k < |st.changeIndex| ==>
          k < |stages| && st.changeIndex[k] < |times|
          && Boundary(stages[k]) < times[st.changeIndex[k]] < Cutoff(stages))
  }

  lemma EarlyPositionsSnoc(pre: seq<nat>, t: nat, cutoff: nat)
    ensures EarlyPositions(pre + [t], cutoff)
            == EarlyPositions(pre, cutoff) + (if t < cutoff then [|pre|] else [])
  {
    assert (pre + [t])[..|pre|] == pre;
  }

  lemma PrefixAgrees(pre: seq<nat>, t: nat)
    ensures forall p :: 0 <= p < |pre| ==> (pre + [t])[p] == pre[p]
  {
  }

  /** Appending the sample at position |pre| to stage y (the current stage x,
      or x + 1 on a crossing) keeps the list guarantees. */
  lemma AppendKeepsLists(stages: seq<StageEntry>, kp: seq<nat>, st: ScanState, st': ScanState, y: nat, p: nat)
    requires ListsInv(stages, kp, st)
    requires y == st.cursor || (y == st.cursor + 1 && st'.changeIndex == st.changeIndex + [p])
    requires y < |stages|
    requires y == st.cursor ==> st'.changeIndex == st.changeIndex
    requires st' == Record(st.(cursor := y, changeIndex := st'.changeIndex), stages, y)
    ensures ListsInv(stages, kp + [p], st')
    ensures forall j :: 0 <= j <= |kp| ==> Previous(st'.stageRows, j) == Previous(st.stageRows, j)
  {
    assert st'.stageRows == st.stageRows + [y];
    assert forall j :: 0 <= j <= |kp| ==> Previous(st'.stageRows, j) == Previous(st.stageRows, j);
  }

  /** A sample at or after the cutoff changes nothing. */
  lemma StepCutKeepsInv(stages: seq<StageEntry>, pre: seq<nat>, st: ScanState, t: nat)
    requires |stages| > 0
    requires ScanInv(stages, pre, st)
    requires t >= Cutoff(stages)
    ensures ScanInv(stages, pre + [t], Step(stages, st, |pre|, t))
  {
    EarlyPositionsSnoc(pre, t, Cutoff(stages));
    PrefixAgrees(pre, t);
  }

  /** A sample no later than the current stage's finish time joins that stage. */
  lemma StepStayKeepsInv(stages: seq<StageEntry>, pre: seq<nat>, st: ScanState, t: nat)
    requires |stages| > 0
    requires ScanInv(stages, pre, st)
    requires t < Cutoff(stages) && t <= Boundary(stages[st.cursor])
    ensures ScanInv(stages, pre + [t], Step(stages, st, |pre|, t))
  {
    var times := pre + [t];
    var kp := EarlyPositions(pre, Cutoff(stages));
    var kp' := kp + [|pre|];
    EarlyPositionsSnoc(pre, t, Cutoff(stages));
    PrefixAgrees(pre, t);
    var st' := Step(stages, st, |pre|, t);
    assert st' == Record(st, stages, st.cursor);
    AppendKeepsLists(stages, kp, st, st', st.cursor, |pre|);
    assert StaysInv(stages, times, kp', st') by {
      forall j | 0 <= j < |kp'| && st'.stageRows[j] == Previous(st'.stageRows, j)
        ensures kp'[j] < |times| && times[kp'[j]] <= Boundary(stages[st'.stageRows[j]])
      {
        if j < |kp| {
          assert st'.stageRows[j] == st.stageRows[j] && kp'[j] == kp[j];
        }
      }
    }
    assert MovesInv(stages, kp', st') by {
      forall j | 0 <= j < |kp'| && st'.stageRows[j] == Previous(st'.stageRows, j) + 1
        ensures st'.changeIndex[Previous(st'.stageRows, j)] == kp'[j]
      {
        assert j < |kp|;
        assert st'.stageRows[j] == st.stageRows[j] && kp'[j] == kp[j];
      }
    }
    assert CrossingsInv(stages, times, st');
  }

  /** A later sample moves the cursor on by one and is recorded as a crossing. */
  lemma StepMoveKeepsInv(stages: seq<StageEntry>, pre: seq<nat>, st: ScanState, t: nat)
    requires |stages| > 0
    requires ScanInv(stages, pre, st)
    requires t < Cutoff(stages) && t > Boundary(stages[st.cursor])
    ensures ScanInv(stages, pre + [t], Step(stages, st, |pre|, t))
  {
    var times := pre + [t];
    var kp := EarlyPositions(pre, Cutoff(stages));
    var kp' := kp + [|pre|];
    EarlyPositionsSnoc(pre, t, Cutoff(stages));
    PrefixAgrees(pre, t);
    var x := st.cursor;
    var st' := Step(stages, st, |pre|, t);
    assert x + 1 < |stages|;
    assert st' == Record(st.(cursor := x + 1, changeIndex := st.changeIndex + [|pre|]), stages, x + 1);
    AppendKeepsLists(stages, kp, st, st', x + 1, |pre|);
    assert StaysInv(stages, times, kp', st') by {
      forall j | 0 <= j < |kp'| && st'.stageRows[j] == Previous(st'.stageRows, j)
        ensures kp'[j] < |times| && times[kp'[j]] <= Boundary(stages[st'.stageRows[j]])
      {
        assert j < |kp|;
        assert st'.stageRows[j] == st.stageRows[j] && kp'[j] == kp[j];
      }
    }
    assert MovesInv(stages, kp', st') by {
      forall j | 0 <= j < |kp'| && st'.stageRows[j] == Previous(st'.stageRows, j) + 1
        ensures st'.changeIndex[Previous(st'.stageRows, j)] == kp'[j]
      {
        if j < |kp| {
          assert st'.stageRows[j] == st.stageRows[j] && kp'[j] == kp[j];
        } else {
          assert Previous(st'.stageRows, j) == x;
        }
      }
    }
    assert CrossingsInv(stages, times, st') by {
      forall k | 0 <= k < |st.changeIndex| ensures st.changeIndex[k] < |pre| {
      }
    }
  }

  /** One step of the scan keeps every guarantee, now over one more sample. */
  lemma StepKeepsInv(stages: seq<StageEntry>, pre: seq<nat>, st: ScanState, t: nat)
    requires |stages| > 0
    requires ScanInv(stages, pre, st)
    ensures ScanInv(stages, pre + [t], Step(stages, st, |pre|, t))
  {
    if t >= Cutoff(stages) {
      StepCutKeepsInv(stages, pre, st, t);
    } else if t <= Boundary(stages[st.cursor]) {
      StepStayKeepsInv(stages, pre, st, t);
    } else {
      StepMoveKeepsInv(stages, pre, st, t);
    }
  }

  /** Everything ScanInv states holds after the whole scan. */
  lemma {:induction false} ScanEstablishesInv(stages: seq<StageEntry>, times: seq<nat>)
    requires |stages| > 0
    ensures ScanInv(stages, times, Scan(stages, times))
  {
    if times != [] {
      var n := |times| - 1;
      ScanEstablishesInv(stages, times[..n]);
      assert times[..n] + [times[n]] == times;
      StepKeepsInv(stages, times[..n], Scan(stages, times[..n]), times[n]);
    }
  }

  /** The early positions are exactly the samples earlier than the cutoff, in
      trace order. */
  lemma {:induction false} EarlyPositionsExact(times: seq<nat>, cutoff: nat)
    ensures StrictlyIncreasing(EarlyPositions(times, cutoff))
    ensures forall p :: p in EarlyPositions(times, cutoff) <==> 0 <= p < |times| && times[p] < cutoff
  {
    if times != [] {
      var n := |times| - 1;
      EarlyPositionsExact(times[..n], cutoff);
      assert times[..n] + [times[n]] == times;
      EarlyPositionsSnoc(times[..n], times[n], cutoff);
    }
  }

  /** Cutoff: the three parallel lists have one entry per sample strictly
      earlier than the last stage's finish time, and no other. */
  lemma ScanKeepsEarlySamples(stages: seq<StageEntry>, times: seq<nat>)
    requires |stages| > 0
    ensures var st := Scan(stages, times);
            var kp := EarlyPositions(times, Cutoff(stages));
            |st.stageRows| == |kp| && |st.velocityRows| == |kp| && |st.lactateRows| == |kp|
            && StrictlyIncreasing(kp)
            && (forall p :: p in kp <==> 0 <= p < |times| && times[p] < Cutoff(stages))
  {
    ScanEstablishesInv(stages, times);
    EarlyPositionsExact(times, Cutoff(stages));
  }

  /** Cursor progress: the recorded stages start at 0 or 1, never decrease and
      move by at most one per sample; the cursor ends on the last recorded stage
      (0 if none), inside the table, and there is one crossing per move. */
  lemma ScanCursorProgress(stages: seq<StageEntry>, times: seq<nat>)
    requires |stages| > 0
    ensures var st := Scan(stages, times);
            var rows := st.stageRows;
            st.cursor < |stages|
            && |st.changeIndex| == st.cursor
            && (rows == [] ==> st.cursor == 0)
            && (rows != [] ==> rows[0] <= 1 && st.cursor == rows[|rows| - 1])
            && (forall j :: 0 < j < |rows| ==> rows[j - 1] <= rows[j] <= rows[j - 1] + 1)
            && (forall j :: 0 <= j < |rows| ==> rows[j] < |stages|)
  {
    var st := Scan(stages, times);
    var rows := st.stageRows;
    ScanEstablishesInv(stages, times);
    forall j | 0 < j < |rows| ensures rows[j - 1] <= rows[j] <= rows[j - 1] + 1 {
      assert Previous(rows, j) == rows[j - 1];
    }
    if rows != [] {
      assert Previous(rows, 0) == 0;
      assert Previous(rows, |rows|) == rows[|rows| - 1];
    }
  }

  /** Parallel lists: entry j of the velocity and blood-lactate lists is the
      velocity and blood lactate of the stage row entry j of the stage list names. */
  lemma ScanCopiesStageFields(stages: seq<StageEntry>, times: seq<nat>)
    requires |stages| > 0
    ensures var st := Scan(stages, times);
            |st.velocityRows| == |st.stageRows| && |st.lactateRows| == |st.stageRows|
            && forall j :: 0 <= j < |st.stageRows| ==>
                 st.stageRows[j] < |stages|
                 && st.velocityRows[j] == stages[st.stageRows[j]].velocity
                 && st.lactateRows[j] == stages[st.stageRows[j]].bloodLactate
  {
    ScanEstablishesInv(stages, times);
  }

  /** Inclusive boundary: an early sample stays in the current stage exactly
      when its time is at or before that stage's finish time; otherwise it moves
      the cursor on by one and is recorded as the crossing. */
  lemma ScanAssignsByBoundary(stages: seq<StageEntry>, times: seq<nat>, j: nat)
    requires |stages| > 0
    requires j < |EarlyPositions(times, Cutoff(stages))|
    ensures |Scan(stages, times).stageRows| == |EarlyPositions(times, Cutoff(stages))|
    ensures var st := Scan(stages, times);
            var kp := EarlyPositions(times, Cutoff(stages));
            var prev := Previous(st.stageRows, j);
            prev < |stages| && kp[j] < |times|
            && (st.stageRows[j] == prev <==> times[kp[j]] <= Boundary(stages[prev]))
            && (st.stageRows[j] != prev ==>
                  st.stageRows[j] == prev + 1 && prev < |st.changeIndex| && st.changeIndex[prev] == kp[j])
  {
    var st := Scan(stages, times);
    var kp := EarlyPositions(times, Cutoff(stages));
    ScanEstablishesInv(stages, times);
    var prev := Previous(st.stageRows, j);
    if j > 0 {
      assert st.stageRows[j - 1] <= st.cursor;
    }
  }

  /** A scanned trace that is in time order keeps a prefix of its samples. */
  lemma {:induction false} SortedTraceKeepsPrefix(times: seq<nat>, cutoff: nat)
    requires forall p, q :: 0 <= p < q < |times| ==> times[p] <= times[q]
    ensures var kp := EarlyPositions(times, cutoff);
            forall j :: 0 <= j < |kp| ==> kp[j] == j
  {
    if times != [] {
      var n := |times| - 1;
      var pre := times[..n];
      assert forall p, q :: 0 <= p < q < |pre| ==> pre[p] <= pre[q] by {
        forall p, q | 0 <= p < q < |pre| ensures pre[p] <= pre[q] {
          assert pre[p] == times[p] && pre[q] == times[q];
        }
      }
      SortedTraceKeepsPrefix(pre, cutoff);
      assert pre + [times[n]] == times;
      EarlyPositionsSnoc(pre, times[n], cutoff);
      var kp := EarlyPositions(pre, cutoff);
      if times[n] < cutoff && |kp| < n {
        var p := |kp|;
        EarlyPositionsExact(pre, cutoff);
        assert p !in kp by {
          forall j | 0 <= j < |kp| ensures kp[j] != p {
            assert kp[j] == j;
          }
        }
        assert false;
      }
      var kp' := EarlyPositions(times, cutoff);
      forall j | 0 <= j < |kp'| ensures kp'[j] == j {
        if j < |kp| {
          assert kp'[j] == kp[j];
        }
      }
    }
  }

  /** The scan does not guarantee that a sample's time is at or before the
      finish time of the stage it is assigned to: when a stage's window holds
      no sample, the next sample moves the cursor by one stage only. */
  lemma SkippedStageExample()
    ensures var stages := [StageEntry(1.0, 8.0, FinishTime(0, 10)),
                           StageEntry(2.0, 9.0, FinishTime(0, 20)),
                           StageEntry(3.0, 10.0, FinishTime(0, 30))];
            var st := Scan(stages, [25]);
            st.stageRows == [1] && 25 > Boundary(stages[1])
  {
    var stages := [StageEntry(1.0, 8.0, FinishTime(0, 10)),
                   StageEntry(2.0, 9.0, FinishTime(0, 20)),
                   StageEntry(3.0, 10.0, FinishTime(0, 30))];
    assert [25][..0] == [];
  }

  /** The scan over the samples, as the source runs it: a cursor and lists
      updated in place, one sample at a time. */
  method AssignStages(stages: seq<StageEntry>, times: seq<nat>) returns (r: Result<ScanState>)
    ensures r == Resolve(stages, times)
    ensures r.Err? <==> stages == [] && times != []
    ensures r.Ok? && stages != [] ==> ScanInv(stages, times, r.value)
  {
    if stages == [] {
      if times == [] {
        return Ok(Start());
      }
      return Err(EmptyStageTable);
    }
    var x: nat := 0;
    var stageRows: seq<nat> := [];
    var velocityRows: seq<real> := [];
    var lactateRows: seq<real> := [];
    var changeIndex: seq<nat> := [];
    for i := 0 to |times|
      invariant ScanState(x, stageRows, velocityRows, lactateRows, changeIndex) == Scan(stages, times[..i])
    {
      assert times[..i + 1][..i] == times[..i];
      var t := times[i];
      if t < Cutoff(stages) {
        if x + 1 <= |stages| {
          if t <= Boundary(stages[x]) {
            stageRows := stageRows + [x];
            velocityRows := velocityRows + [stages[x].velocity];
            lactateRows := lactateRows + [stages[x].bloodLactate];
          } else {
            x := x + 1;
            changeIndex := changeIndex + [i];
            stageRows := stageRows + [x];
            velocityRows := velocityRows + [stages[x].velocity];
            lactateRows := lactateRows + [stages[x].bloodLactate];
          }
        }
      }
    }
    assert times[..|times|] == times;
    r := Ok(ScanState(x, stageRows, velocityRows, lactateRows, changeIndex));
    ScanEstablishesInv(stages, times);
  }
}
