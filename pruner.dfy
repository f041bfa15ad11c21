/** The column pruner: discards the two metadata rows of the raw trace and a
    fixed list of column positions, keeping the other columns in order. */
module Pruner {
  import opened Sequences
  import opened Outcome

  /** A half-open range [lo, hi) of column positions. */
  datatype Span = Span(lo: nat, hi: nat)

  /** The column positions dropped from the raw trace, as a named list of ranges:
      0-8, 25-29, 41-44, 46, 49-57, 64, 65, 70, 75-106, 109-116, 119, 121, 125-127. */
  const DroppedSpans: seq<Span> := [
    Span(0, 9), Span(25, 30), Span(41, 45), Span(46, 47), Span(49, 58),
    Span(64, 65), Span(65, 66), Span(70, 71), Span(75, 107), Span(109, 117),
    Span(119, 120), Span(121, 122), Span(125, 128)
  ]

  /** The smallest column count for which every dropped position exists. */
  const MinWidth: nat := 128

  /** Position of the timestamp column in the raw trace (the first kept one). */
  const TimeColumn: nat := 9

  /** Non-empty ranges, each starting at or after the end of the one before. */
  predicate SpansOrdered(spans: seq<Span>) {
    (forall k :: 0 <= k < |spans| ==> spans[k].lo < spans[k].hi)
    && (forall k :: 0 <= k < |spans| - 1 ==> spans[k].hi <= spans[k + 1].lo)
  }

  function Width(sp: Span): nat {
    if sp.lo < sp.hi then sp.hi - sp.lo else 0
  }

  /** The positions covered by a list of ranges, range by range. */
  function Positions(spans: seq<Span>): seq<nat> {
    if spans == [] then []
    else seq(Width(spans[0]), i => spans[0].lo + i) + Positions(spans[1..])
  }

  /** Total width of the ranges from index k on. */
  function TotalWidth(spans: seq<Span>, k: nat := 0): nat
    decreases |spans| - k
  {
    if k >= |spans| then 0 else Width(spans[k]) + TotalWidth(spans, k + 1)
  }


  /** Some range of the list covers position p. */
  predicate Covered(spans: seq<Span>, p: nat) {
    exists k :: 0 <= k < |spans| && spans[k].lo <= p < spans[k].hi
  }

  lemma TailOrdered(spans: seq<Span>)
    requires SpansOrdered(spans) && spans != []
    ensures SpansOrdered(spans[1..])
  {
    var tail := spans[1..];
    forall k | 0 <= k < |tail| - 1 ensures tail[k].hi <= tail[k + 1].lo {
      assert tail[k] == spans[k + 1] && tail[k + 1] == spans[k + 2];
    }
  }

  lemma {:induction false} PositionsLength(spans: seq<Span>, k: nat)
    requires k <= |spans|
    ensures |Positions(spans[k..])| == TotalWidth(spans, k)
    decreases |spans| - k
  {
    if k < |spans| {
      PositionsLength(spans, k + 1);
      assert spans[k..][1..] == spans[k + 1..];
    }
  }

  /** The positions are exactly the numbers some range covers. */
  lemma {:induction false} PositionsMembership(spans: seq<Span>, p: nat)
    ensures p in Positions(spans) <==> Covered(spans, p)
  {
    if spans != [] {
      var tail := spans[1..];
      PositionsMembership(tail, p);
      var head := seq(Width(spans[0]), i => spans[0].lo + i);
      assert Positions(spans) == head + Positions(tail);
      if p in Positions(spans) {
        if p in head {
          assert spans[0].lo <= p < spans[0].hi;
        } else {
          var k :| 0 <= k < |tail| && tail[k].lo <= p < tail[k].hi;
          assert spans[k + 1] == tail[k];
        }
      }
      if Covered(spans, p) {
        var k :| 0 <= k < |spans| && spans[k].lo <= p < spans[k].hi;
        if k == 0 {
          assert head[p - spans[0].lo] == p;
        } else {
          assert tail[k - 1] == spans[k];
        }
      }
    }
  }

  /** Ordered ranges give ascending positions, none below the first range. */
  lemma {:induction false} PositionsAscending(spans: seq<Span>)
    requires SpansOrdered(spans)
    ensures StrictlyIncreasing(Positions(spans))
    ensures spans != [] ==> forall p :: p in Positions(spans) ==> spans[0].lo <= p
  {
    if spans != [] {
      var tail := spans[1..];
      TailOrdered(spans);
      PositionsAscending(tail);
      var head := seq(Width(spans[0]), i => spans[0].lo + i);
      var rest := Positions(tail);
      assert Positions(spans) == head + rest;
      assert forall p :: p in rest ==> spans[0].hi <= p by {
        if tail != [] {
          assert tail[0] == spans[1];
        }
      }
      var all := Positions(spans);
      forall i, j | 0 <= i < j < |all| ensures all[i] < all[j] {
        if j < |head| {
        } else if i < |head| {
          assert all[j] == rest[j - |head|];
          assert all[j] in rest;
        } else {
          assert all[i] == rest[i - |head|] && all[j] == rest[j - |head|];
        }
      }
      forall p | p in all ensures spans[0].lo <= p {
        if p !in head {
          assert p in rest;
        }
      }
    }
  }

  lemma DroppedWidth()
    ensures TotalWidth(DroppedSpans, 0) == 76
  {
    assert TotalWidth(DroppedSpans, 12) == 3;
    assert TotalWidth(DroppedSpans, 11) == 4;
    assert TotalWidth(DroppedSpans, 10) == 5;
    assert TotalWidth(DroppedSpans, 9) == 13;
    assert TotalWidth(DroppedSpans, 8) == 45;
    assert TotalWidth(DroppedSpans, 7) == 46;
    assert TotalWidth(DroppedSpans, 6) == 47;
    assert TotalWidth(DroppedSpans, 5) == 48;
    assert TotalWidth(DroppedSpans, 4) == 57;
    assert TotalWidth(DroppedSpans, 3) == 58;
    assert TotalWidth(DroppedSpans, 2) == 62;
    assert TotalWidth(DroppedSpans, 1) == 67;
  }

  /** What the dropped list is known to satisfy . */
  predicate DropListShape(ds: seq<nat>) {
    |ds| == 76
    && StrictlyIncreasing(ds)
    && (forall p :: p in ds ==> p < MinWidth)
    && (forall p :: 0 <= p < TimeColumn ==> p in ds)
    && TimeColumn !in ds
  }

  lemma DroppedSpansOrdered()
    ensures SpansOrdered(DroppedSpans)
  {
  }

  /** Ordered ranges do not overlap and come in increasing order. */
  lemma {:induction false} SpansSeparated(spans: seq<Span>, k: nat, l: nat)
    requires SpansOrdered(spans)
    requires k < l < |spans|
    ensures spans[k].hi <= spans[l].lo
    decreases l - k
  {
    if k + 1 < l {
      SpansSeparated(spans, k + 1, l);
    }
  }

  /** Every dropped range ends at or before 128. */
  lemma DroppedBelowMinWidth(d: seq<Span>, p: nat)
    requires d == DroppedSpans
    requires Covered(d, p)
    ensures p < MinWidth
  {
    DroppedSpansOrdered();
    var k :| 0 <= k < |d| && d[k].lo <= p < d[k].hi;
    if k < 12 {
      SpansSeparated(d, k, 12);
    }
  }

  /** The timestamp column falls in the gap between the first two ranges. */
  lemma TimeColumnNotCovered(d: seq<Span>)
    requires d == DroppedSpans
    ensures !Covered(d, TimeColumn)
  {
    DroppedSpansOrdered();
    forall k | 0 <= k < |d| ensures !(d[k].lo <= TimeColumn < d[k].hi) {
      if k > 1 {
        SpansSeparated(d, 1, k);
      }
    }
  }

  /** The dropped list holds exactly 76 positions, ascending (hence distinct),
      all below 128; everything before the timestamp column is dropped and the
      timestamp column is not. */
  lemma DroppedFacts(d: seq<Span>)
    requires d == DroppedSpans
    ensures DropListShape(Positions(d))
  {
    DroppedWidth();
    PositionsLength(d, 0);
    assert d[0..] == d;
    DroppedSpansOrdered();
    PositionsAscending(d);
    forall p | p in Positions(d) ensures p < MinWidth {
      PositionsMembership(d, p);
      DroppedBelowMinWidth(d, p);
    }
    forall p | 0 <= p < TimeColumn ensures p in Positions(d) {
      PositionsMembership(d, p);
      assert d[0].lo <= p < d[0].hi;
    }
    PositionsMembership(d, TimeColumn);
    TimeColumnNotCovered(d);
  }

  /** The dropped positions, in the order the source lists them. */
  function Dropped(): (ds: seq<nat>)
    ensures DropListShape(ds)
  {
    var d := DroppedSpans;
    DroppedFacts(d);
    Positions(d)
  }

  /** The positions below n that a drop list ds leaves, in increasing order. */
  function Kept(ds: seq<nat>, n: nat): (r: seq<nat>)
    ensures forall j :: 0 <= j < |r| ==> r[j] < n
  {
    if n == 0 then []
    else Kept(ds, n - 1) + (if n - 1 in ds then [] else [n - 1])
  }

  /** How many entries of ds lie below n. */
  function CountBelow(ds: seq<nat>, n: nat): nat {
    if ds == [] then 0 else (if ds[0] < n then 1 else 0) + CountBelow(ds[1..], n)
  }

  lemma {:induction false} CountBelowStep(ds: seq<nat>, n: nat)
    requires StrictlyIncreasing(ds)
    ensures CountBelow(ds, n + 1) == CountBelow(ds, n) + (if n in ds then 1 else 0)
  {
    if ds != [] {
      assert StrictlyIncreasing(ds[1..]) by {
        forall i, j | 0 <= i < j < |ds[1..]| ensures ds[1..][i] < ds[1..][j] {
          assert ds[1..][i] == ds[i + 1] && ds[1..][j] == ds[j + 1];
        }
      }
      CountBelowStep(ds[1..], n);
      assert n in ds <==> ds[0] == n || n in ds[1..];
      if ds[0] == n {
        forall q | q in ds[1..] ensures q > n {
          var j :| 0 <= j < |ds[1..]| && ds[1..][j] == q;
          assert ds[j + 1] == q;
        }
      }
    }
  }

  lemma {:induction false} CountBelowAll(ds: seq<nat>, n: nat)
    requires forall d :: d in ds ==> d < n
    ensures CountBelow(ds, n) == |ds|
  {
    if ds != [] {
      assert ds[0] in ds;
      assert forall d :: d in ds[1..] ==> d in ds;
      CountBelowAll(ds[1..], n);
    }
  }

  /** A position below n survives exactly when it is not dropped. */
  lemma {:induction false} KeptMembership(ds: seq<nat>, n: nat, p: nat)
    ensures p in Kept(ds, n) <==> p < n && p !in ds
  {
    if n > 0 {
      KeptMembership(ds, n - 1, p);
    }
  }

  /** Surviving positions keep their relative order. */
  lemma {:induction false} KeptAscending(ds: seq<nat>, n: nat)
    ensures StrictlyIncreasing(Kept(ds, n))
  {
    if n > 0 {
      var prev := Kept(ds, n - 1);
      KeptAscending(ds, n - 1);
      forall i | 0 <= i < |prev| ensures prev[i] < n - 1 {
        KeptMembership(ds, n - 1, prev[i]);
      }
    }
  }

  /** Every position below n is either kept or dropped, never both. */
  lemma {:induction false} KeptCount(ds: seq<nat>, n: nat)
    requires StrictlyIncreasing(ds)
    ensures |Kept(ds, n)| + CountBelow(ds, n) == n
  {
    if n == 0 {
      assert CountBelow(ds, 0) == 0 by {
        CountBelowZero(ds);
      }
    } else {
      KeptCount(ds, n - 1);
      CountBelowStep(ds, n - 1);
    }
  }

  lemma {:induction false} CountBelowZero(ds: seq<nat>)
    ensures CountBelow(ds, 0) == 0
  {
    if ds != [] {
      CountBelowZero(ds[1..]);
    }
  }

  /** A table of at least 128 columns keeps width - 76 of them, in their
      original order, the first kept one being the timestamp column. */
  lemma KeptFacts(ds: seq<nat>, w: nat)
    requires DropListShape(ds)
    requires w >= MinWidth
    ensures |Kept(ds, w)| == w - 76
    ensures StrictlyIncreasing(Kept(ds, w))
    ensures forall p: nat :: p in Kept(ds, w) <==> p < w && p !in ds
    ensures Kept(ds, w)[0] == TimeColumn
  {
    KeptCount(ds, w);
    CountBelowAll(ds, w);
    KeptAscending(ds, w);
    forall p: nat ensures p in Kept(ds, w) <==> p < w && p !in ds {
      KeptMembership(ds, w, p);
    }
    var k := Kept(ds, w);
    assert TimeColumn in k;
    assert k[0] in k;
  }

  /** A raw trace as the loader produces it: a fixed number of columns and rows
      of cells. */
  datatype Table<T> = Table(width: nat, rows: seq<seq<T>>)

  predicate Rectangular<T>(t: Table<T>) {
    forall i :: 0 <= i < |t.rows| ==> |t.rows[i]| == t.width
  }

  /** The cells of a row at the given positions, in the positions' order. */
  function Project<T>(row: seq<T>, ps: seq<nat>): (r: seq<T>)
    requires forall j :: 0 <= j < |ps| ==> ps[j] < |row|
    ensures |r| == |ps|
    ensures forall j :: 0 <= j < |ps| ==> r[j] == row[ps[j]]
  {
    seq(|ps|, j requires 0 <= j < |ps| => row[ps[j]])
  }

  /** The data rows of a table (after its two metadata rows), each reduced to
      the columns a drop list ds leaves. */
  function PruneRows<T>(ds: seq<nat>, t: Table<T>): (r: Table<T>)
    requires DropListShape(ds)
    requires Rectangular(t) && |t.rows| >= 2 && t.width >= MinWidth
    ensures Rectangular(r)
    ensures r.width == t.width - 76 && |r.rows| == |t.rows| - 2
    ensures |Kept(ds, t.width)| == r.width
    ensures forall i, j :: 0 <= i < |r.rows| && 0 <= j < r.width ==>
              r.rows[i][j] == t.rows[i + 2][Kept(ds, t.width)[j]]
    ensures forall i :: 0 <= i < |r.rows| ==> r.rows[i][0] == t.rows[i + 2][TimeColumn]
  {
    KeptFacts(ds, t.width);
    var ps := Kept(ds, t.width);
    var rows := seq(|t.rows| - 2, i requires 0 <= i < |t.rows| - 2 => Project(t.rows[i + 2], ps));
    assert forall i :: 0 <= i < |rows| ==> rows[i] == Project(t.rows[i + 2], ps);
    Table(t.width - 76, rows)
  }

  /** Drops the two metadata rows (renumbering the remaining rows from 0) and
      the fixed column positions. Fails where dropping the row labels 0 and 1,
      or looking up a dropped position, would fail. */
  function PruneTrace<T>(t: Table<T>): (r: Result<Table<T>>)
    requires Rectangular(t)
    ensures |t.rows| < 2 ==> r == Err(MissingMetadataRows)
    ensures |t.rows| >= 2 && t.width < MinWidth ==> r == Err(TooFewColumns(t.width))
    ensures r.Ok? <==> |t.rows| >= 2 && t.width >= MinWidth
    ensures r.Ok? ==> r.value == PruneRows(Dropped(), t)
  {
    if |t.rows| < 2 then Err(MissingMetadataRows)
    else if t.width < MinWidth then Err(TooFewColumns(t.width))
    else Ok(PruneRows(Dropped(), t))
  }
}
