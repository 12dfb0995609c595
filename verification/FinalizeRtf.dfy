/** Filling the real-time-factor column: a windowed two-end difference over the
    clock rows, looked up by binary search after a sort. */
module FinalizeRtf {
  import opened Prelude

  const WINDOW_NS: int := 1_000_000_000
  const NOT_APPLICABLE: real := -1.0

  /** One receipt of the simulation clock. */
  datatype Tick = Tick(clock: int, arrival: int)

  // ---- the naive definition ----

  ghost predicate Within(rows: seq<Tick>, r: Tick, t: int) {
    r in rows && t - WINDOW_NS <= r.arrival <= t
  }

  ghost predicate IsFirst(rows: seq<Tick>, r: Tick, t: int) {
    Within(rows, r, t) && forall o :: Within(rows, o, t) ==> r.arrival <= o.arrival
  }

  ghost predicate IsLast(rows: seq<Tick>, r: Tick, t: int) {
    Within(rows, r, t) && forall o :: Within(rows, o, t) ==> o.arrival <= r.arrival
  }

  function Ratio(first: Tick, last: Tick): real
    requires first.arrival < last.arrival
  {
    var q := (last.clock - first.clock) as real / (last.arrival - first.arrival) as real;
    if q < 0.0 then 0.0 else q
  }

  ghost predicate Spread(rows: seq<Tick>, t: int) {
    exists a, b :: Within(rows, a, t) && Within(rows, b, t) && a.arrival < b.arrival
  }

  /** Last minus first over the rows in the trailing window, clamped; or the
      sentinel when the window holds no two different arrivals. It mentions the
      rows only through membership, so their order cannot matter. */
  ghost predicate IsRtf(rows: seq<Tick>, t: int, v: real) {
    if Spread(rows, t) then exists a, b :: IsFirst(rows, a, t) && IsLast(rows, b, t) && a.arrival < b.arrival && v == Ratio(a, b)
    else v == NOT_APPLICABLE
  }

  ghost predicate DistinctArrivals(rows: seq<Tick>) {
    forall r, o :: r in rows && o in rows && r.arrival == o.arrival ==> r == o
  }

  /** With distinct arrivals the definition has one value. */
  lemma RtfIsUnique(rows: seq<Tick>, t: int, v: real, w: real)
    requires DistinctArrivals(rows) && IsRtf(rows, t, v) && IsRtf(rows, t, w)
    ensures v == w
  {
    if Spread(rows, t) {
      var a, b :| IsFirst(rows, a, t) && IsLast(rows, b, t) && a.arrival < b.arrival && v == Ratio(a, b);
      var c, d :| IsFirst(rows, c, t) && IsLast(rows, d, t) && c.arrival < d.arrival && w == Ratio(c, d);
      assert a.arrival == c.arrival && b.arrival == d.arrival;
    }
  }

  /** On a simulation clock that runs at rate k against the receipts the value is k, or 0
      for a clock that runs backward; and -1 exactly where the second before the sample
      holds no two receipts at different times. */
  lemma SteadyClockRate(rows: seq<Tick>, t: int, k: real, c: real, v: real)
    requires IsRtf(rows, t, v)
    requires forall r :: r in rows ==> r.clock as real == k * r.arrival as real + c
    ensures (exists a, b :: a in rows && b in rows && t - 1_000_000_000 <= a.arrival < b.arrival <= t) ==>
              v == if k > 0.0 then k else 0.0
    ensures !(exists a, b :: a in rows && b in rows && t - 1_000_000_000 <= a.arrival < b.arrival <= t) ==> v == -1.0
  {
    if a, b :| a in rows && b in rows && t - 1_000_000_000 <= a.arrival < b.arrival <= t {
      assert Within(rows, a, t) && Within(rows, b, t);
      var first, last :| IsFirst(rows, first, t) && IsLast(rows, last, t) && first.arrival < last.arrival && v == Ratio(first, last);
      SteadyRatio(first, last, k, c);
    }
  }

  lemma SteadyRatio(first: Tick, last: Tick, k: real, c: real)
    requires first.arrival < last.arrival
    requires first.clock as real == k * first.arrival as real + c && last.clock as real == k * last.arrival as real + c
    ensures Ratio(first, last) == if k > 0.0 then k else 0.0
  {
    var d := (last.arrival - first.arrival) as real;
    assert (last.clock - first.clock) as real == k * d;
    assert k * d / d == k;
  }

  // ---- the sorted form ----

  ghost predicate Sorted(rows: seq<Tick>) {
    forall i, j :: 0 <= i <= j < |rows| ==> rows[i].arrival <= rows[j].arrival
  }

  /** A permutation of the rows that sorts arrivals: any result of argsort. */
  ghost predicate ArgSorted(order: seq<nat>, rows: seq<Tick>, sorted: seq<Tick>) {
    && |order| == |rows| == |sorted|
    && (forall k :: 0 <= k < |order| ==> order[k] < |rows| && sorted[k] == rows[order[k]])
    && (forall i :: 0 <= i < |rows| ==> i in order)
    && Sorted(sorted)
  }

  lemma SortingKeepsRows(order: seq<nat>, rows: seq<Tick>, sorted: seq<Tick>, r: Tick)
    requires ArgSorted(order, rows, sorted)
    ensures r in sorted <==> r in rows
  {
    if r in rows {
      var i :| 0 <= i < |rows| && rows[i] == r;
      assert i in order;
      var k :| 0 <= k < |order| && order[k] == i;
      assert sorted[k] == r;
    }
    if r in sorted {
      var k :| 0 <= k < |sorted| && sorted[k] == r;
      assert rows[order[k]] == r;
    }
  }

  /** `searchsorted(..., "left")` on sorted arrivals. */
  function Left(rows: seq<Tick>, x: int): (j: nat)
    ensures j <= |rows| && (forall i :: 0 <= i < j ==> rows[i].arrival < x) && (j < |rows| ==> rows[j].arrival >= x)
  {
    if rows == [] || rows[0].arrival >= x then 0 else 1 + Left(rows[1..], x)
  }

  /** `searchsorted(..., "right")` on sorted arrivals. */
  function Right(rows: seq<Tick>, x: int): (j: nat)
    ensures j <= |rows| && (forall i :: 0 <= i < j ==> rows[i].arrival <= x) && (j < |rows| ==> rows[j].arrival > x)
  {
    if rows == [] || rows[0].arrival > x then 0 else 1 + Right(rows[1..], x)
  }

  function RtfAt(sorted: seq<Tick>, t: int): real {
    var lo, hi := Left(sorted, t - WINDOW_NS), Right(sorted, t);
    if hi - lo >= 2 && sorted[hi - 1].arrival - sorted[lo].arrival > 0 then Ratio(sorted[lo], sorted[hi - 1])
    else NOT_APPLICABLE
  }

  lemma WindowIsSlice(sorted: seq<Tick>, t: int, r: Tick)
    requires Sorted(sorted)
    ensures Within(sorted, r, t) <==> exists k :: Left(sorted, t - WINDOW_NS) <= k < Right(sorted, t) && sorted[k] == r
  {
    var lo, hi := Left(sorted, t - WINDOW_NS), Right(sorted, t);
    if Within(sorted, r, t) {
      var k :| 0 <= k < |sorted| && sorted[k] == r;
      assert lo <= k < hi;
    }
    if k :| lo <= k < hi && sorted[k] == r {
      assert sorted[lo].arrival <= sorted[k].arrival;
    }
  }

  /** The two searches find exactly the ends of the window. */
  lemma RtfAtIsRtf(order: seq<nat>, rows: seq<Tick>, sorted: seq<Tick>, t: int)
    requires ArgSorted(order, rows, sorted)
    ensures IsRtf(rows, t, RtfAt(sorted, t))
  {
    hide Left, Right, Ratio;
    var lo, hi := Left(sorted, t - WINDOW_NS), Right(sorted, t);
    forall r ensures Within(rows, r, t) <==> exists k :: lo <= k < hi && sorted[k] == r {
      SortingKeepsRows(order, rows, sorted, r);
      WindowIsSlice(sorted, t, r);
    }
    if Spread(rows, t) {
      var a, b :| Within(rows, a, t) && Within(rows, b, t) && a.arrival < b.arrival;
      var first, last := sorted[lo], sorted[hi - 1];
      assert Within(rows, first, t) && Within(rows, last, t);
      assert IsFirst(rows, first, t) && IsLast(rows, last, t);
      assert first.arrival <= a.arrival < b.arrival <= last.arrival;
    } else if hi - lo >= 2 {
      assert Within(rows, sorted[lo], t) && Within(rows, sorted[hi - 1], t);
    }
  }

  method ComputeRtfSeries(samples: seq<int>, rows: seq<Tick>, order: seq<nat>, sorted: seq<Tick>)
    returns (out: array<real>)
    requires ArgSorted(order, rows, sorted)
    ensures fresh(out) && out.Length == |samples|
    ensures forall i :: 0 <= i < |samples| ==> out[i] == RtfAt(sorted, samples[i]) && IsRtf(rows, samples[i], out[i])
  {
    hide IsRtf, ArgSorted;
    out := new real[|samples|](_ => NOT_APPLICABLE);
    for i := 0 to |samples|
      invariant forall k :: 0 <= k < i ==> out[k] == RtfAt(sorted, samples[k]) && IsRtf(rows, samples[k], out[k])
      invariant forall k :: i <= k < |samples| ==> out[k] == NOT_APPLICABLE
    {
      var t := samples[i];
      var lo, hi := Left(sorted, t - WINDOW_NS), Right(sorted, t);
      RtfAtIsRtf(order, rows, sorted, t);
      if hi - lo >= 2 {
        var dWall := sorted[hi - 1].arrival - sorted[lo].arrival;
        if dWall > 0 {
          out[i] := Ratio(sorted[lo], sorted[hi - 1]);
        }
      }
    }
  }

  /** Two clock files with the same rows, in any order, give the same series. */
  lemma RowOrderIsIrrelevant(rows: seq<Tick>, rows': seq<Tick>, order: seq<nat>, order': seq<nat>,
                             sorted: seq<Tick>, sorted': seq<Tick>, t: int)
    requires ArgSorted(order, rows, sorted) && ArgSorted(order', rows', sorted')
    requires DistinctArrivals(rows) && forall r :: r in rows <==> r in rows'
    ensures RtfAt(sorted, t) == RtfAt(sorted', t)
  {
    RtfAtIsRtf(order, rows, sorted, t);
    RtfAtIsRtf(order', rows', sorted', t);
    SameRowsSameRtf(rows, rows', t, RtfAt(sorted', t));
    RtfIsUnique(rows, t, RtfAt(sorted, t), RtfAt(sorted', t));
  }

  lemma SameRowsSameRtf(rows: seq<Tick>, rows': seq<Tick>, t: int, v: real)
    requires forall r :: r in rows <==> r in rows'
    requires IsRtf(rows', t, v)
    ensures IsRtf(rows, t, v)
  {
    forall r ensures Within(rows, r, t) <==> Within(rows', r, t) {
    }
    forall r ensures (IsFirst(rows, r, t) <==> IsFirst(rows', r, t)) && (IsLast(rows, r, t) <==> IsLast(rows', r, t)) {
    }
  }

  // ---- rewriting the table ----

  type Row = seq<string>

  function IndexOf(header: Row, name: string): (i: Option<nat>)
    ensures i.None? <==> name !in header
    ensures i.Some? ==> i.value < |header| && header[i.value] == name
  {
    if header == [] then None
    else if header[0] == name then Some(0)
    else match IndexOf(header[1..], name) case None => None case Some(k) => Some(k + 1)
  }

  /** How the file's cells are read and written: int() and the six-decimal format. */
  datatype Cells = Cells(stamp: string -> int, show: real -> string)

  const SAMPLE_COLUMN := "sample_system_ns"
  const RTF_COLUMN := "rtf"

  /** Distinct column names never share an index, whatever the column order. */
  lemma ColumnsDiffer(header: Row)
    requires HasColumns(header)
    ensures SampleIndex(header) != RtfIndex(header)
  {
    assert |SAMPLE_COLUMN| != |RTF_COLUMN|;
  }

  predicate HasColumns(header: Row) {
    SAMPLE_COLUMN in header && RTF_COLUMN in header
  }

  function SampleIndex(header: Row): nat
    requires HasColumns(header)
  {
    IndexOf(header, SAMPLE_COLUMN).value
  }

  function RtfIndex(header: Row): nat
    requires HasColumns(header)
  {
    IndexOf(header, RTF_COLUMN).value
  }

  /** Every row is long enough to have both cells; it may be longer than the header. */
  predicate Covered(header: Row, data: seq<Row>)
    requires HasColumns(header)
  {
    forall k :: 0 <= k < |data| ==> SampleIndex(header) < |data[k]| && RtfIndex(header) < |data[k]|
  }

  predicate Finalizable(header: Row, data: seq<Row>) {
    data == [] || (HasColumns(header) && Covered(header, data))
  }

  function FinalizedRow(row: Row, at: nat, rtf: nat, sorted: seq<Tick>, cells: Cells): Row
    requires at < |row| && rtf < |row|
  {
    row[rtf := cells.show(RtfAt(sorted, cells.stamp(row[at])))]
  }

  function Finalized(header: Row, data: seq<Row>, sorted: seq<Tick>, cells: Cells): (r: seq<Row>)
    requires HasColumns(header) && Covered(header, data)
    ensures |r| == |data| && Covered(header, r)
    ensures forall k :: 0 <= k < |r| ==> r[k] == FinalizedRow(data[k], SampleIndex(header), RtfIndex(header), sorted, cells)
  {
    seq(|data|, k requires 0 <= k < |data| => FinalizedRow(data[k], SampleIndex(header), RtfIndex(header), sorted, cells))
  }

  /** Every row is rewritten in place through the series of distinct samples, unless a
      column is missing or a row is too short for one of them: then the file is left
      as it was, because nothing is written out. `unique` and `inverse` are what
      np.unique returns for the sample column. */
  method FinalizeRtf(header: Row, data: array<Row>, rows: seq<Tick>, order: seq<nat>, sorted: seq<Tick>, cells: Cells,
                     unique: seq<int>, inverse: seq<nat>)
    returns (written: bool)
    requires ArgSorted(order, rows, sorted)
    requires HasColumns(header) ==> forall k :: 0 <= k < data.Length && SampleIndex(header) < |data[k]| ==>
               k < |inverse| && inverse[k] < |unique| && unique[inverse[k]] == cells.stamp(data[k][SampleIndex(header)])
    modifies data
    ensures written <==> Finalizable(header, old(data[..]))
    ensures written && data.Length > 0 ==> data[..] == Finalized(header, old(data[..]), sorted, cells)
  {
    hide ArgSorted, RtfAt, IndexOf;
    if data.Length == 0 { return true; }  // header-only file
    if !HasColumns(header) { return false; }
    var at, rtf := SampleIndex(header), RtfIndex(header);
    ghost var was := data[..];
    for k := 0 to data.Length
      invariant forall i :: 0 <= i < k ==> at < |data[i]|
    {
      if at >= |data[k]| { return false; }
    }
    var series := ComputeRtfSeries(unique, rows, order, sorted);
    for k := 0 to data.Length
      invariant series.Length == |unique| && forall i :: 0 <= i < |unique| ==> series[i] == RtfAt(sorted, unique[i])
      invariant forall i :: 0 <= i < k ==> rtf < |was[i]| && data[i] == FinalizedRow(was[i], at, rtf, sorted, cells)
      invariant forall i :: k <= i < data.Length ==> data[i] == was[i]
    {
      assert was[k] == data[k] && at < |was[k]|;
      if rtf >= |data[k]| { return false; }
      data[k] := data[k][rtf := cells.show(series[inverse[k]])];
    }
    assert Covered(header, was);
    assert data[..] == Finalized(header, was, sorted, cells);
    written := true;
  }

  /** For any order of the columns only the rtf column changes, and rows whose sample
      cells read as the same instant get one value. */
  lemma OnlyRtfChanges(header: Row, data: seq<Row>, sorted: seq<Tick>, cells: Cells)
    requires HasColumns(header) && Covered(header, data)
    ensures var r, at, rtf := Finalized(header, data, sorted, cells), SampleIndex(header), RtfIndex(header);
            && at != rtf
            && (forall k :: 0 <= k < |data| ==> |r[k]| == |data[k]|)
            && (forall k, c :: 0 <= k < |data| && 0 <= c < |data[k]| && c != rtf ==> r[k][c] == data[k][c])
            && (forall k, m :: 0 <= k < |data| && 0 <= m < |data| && cells.stamp(data[k][at]) == cells.stamp(data[m][at]) ==>
                  r[k][rtf] == r[m][rtf])
  {
    hide IndexOf, RtfAt;
    ColumnsDiffer(header);
    var r := Finalized(header, data, sorted, cells);
    forall k | 0 <= k < |data|
      ensures r[k] == FinalizedRow(data[k], SampleIndex(header), RtfIndex(header), sorted, cells)
    {
    }
  }

  /** And the rtf cell shows the naive rate at the row's own sample instant. */
  lemma RtfCellShowsRate(header: Row, data: seq<Row>, rows: seq<Tick>, order: seq<nat>, sorted: seq<Tick>, cells: Cells, k: nat)
    requires HasColumns(header) && Covered(header, data) && ArgSorted(order, rows, sorted) && k < |data|
    ensures exists v :: IsRtf(rows, cells.stamp(data[k][SampleIndex(header)]), v)
                        && Finalized(header, data, sorted, cells)[k][RtfIndex(header)] == cells.show(v)
  {
    hide IndexOf, RtfAt, IsRtf, ArgSorted;
    var t := cells.stamp(data[k][SampleIndex(header)]);
    RtfAtIsRtf(order, rows, sorted, t);
    assert Finalized(header, data, sorted, cells)[k] == FinalizedRow(data[k], SampleIndex(header), RtfIndex(header), sorted, cells);
  }

  /** A second pass over the same clock changes nothing. */
  lemma FinalizeIsIdempotent(header: Row, data: seq<Row>, sorted: seq<Tick>, cells: Cells)
    requires HasColumns(header) && Covered(header, data)
    ensures var r := Finalized(header, data, sorted, cells); Finalized(header, r, sorted, cells) == r
  {
    hide IndexOf, RtfAt;
    ColumnsDiffer(header);
    var r, at, rtf := Finalized(header, data, sorted, cells), SampleIndex(header), RtfIndex(header);
    forall k | 0 <= k < |r| ensures FinalizedRow(r[k], at, rtf, sorted, cells) == r[k] {
      assert r[k] == FinalizedRow(data[k], at, rtf, sorted, cells) && r[k][at] == data[k][at];
    }
  }
}
