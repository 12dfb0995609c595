/** The polyline half of the route picker: arc length, resampling to a maximum
    spacing, and the stations that bound the scored stretch of road. */
module Polyline {
  import opened Prelude
  import opened Plane

  /** Arc length from the first vertex to vertex `i`. */
  function Arc(metric: Metric, points: seq<XY>, i: nat): real
    requires i == 0 || i < |points|
  {
    if i == 0 then 0.0 else Arc(metric, points, i - 1) + Gap(metric, points, i)
  }

  function Total(metric: Metric, points: seq<XY>): real {
    if points == [] then 0.0 else Arc(metric, points, |points| - 1)
  }

  method CumulativeArcLength(metric: Metric, points: seq<XY>) returns (out: seq<real>)
    ensures |out| == if points == [] then 1 else |points|
    ensures forall i :: 0 <= i < |out| ==> out[i] == Arc(metric, points, i)
    ensures out[|out| - 1] == Total(metric, points)
    ensures out[0] == 0.0 && forall i :: 0 <= i < |out| - 1 ==> out[i + 1] - out[i] == metric(points[i], points[i + 1])
  {
    out := [0.0];
    for i := 0 to |points| - (if points == [] then 0 else 1)
      invariant |out| == i + 1
      invariant forall j :: 0 <= j <= i ==> out[j] == Arc(metric, points, j)
    {
      out := out + [out[i] + metric(points[i], points[i + 1])];
    }
  }

  /** Fewest equal pieces no longer than `spacing`, and never none. */
  function Pieces(len: real, spacing: real): (n: nat)
    requires len >= 0.0 && spacing > 0.0
    ensures n >= 1 && len <= n as real * spacing
    ensures n > 1 ==> (n - 1) as real * spacing < len
  {
    var up := -((-(len / spacing)).Floor);
    assert up as real - 1.0 < len / spacing <= up as real;
    QuotientBounds(len, spacing, (up - 1) as real, up as real);
    if up < 1 then 1 else up
  }

  lemma QuotientBounds(len: real, spacing: real, lo: real, hi: real)
    requires spacing > 0.0 && lo < len / spacing <= hi
    ensures len <= hi * spacing && lo * spacing < len
  {
    var q := len / spacing;
    assert q * spacing == len;
    ProductOrder(q, hi, spacing);
    ProductOrder(lo, q, spacing);
  }

  lemma ProductOrder(a: real, b: real, k: real)
    requires k > 0.0
    ensures a < b <==> a * k < b * k
    ensures a <= b <==> a * k <= b * k
  {
    assert (b - a) * k == b * k - a * k;
  }

  function Lerp(p: XY, q: XY, t: real): XY {
    XY(p.x + t * (q.x - p.x), p.y + t * (q.y - p.y))
  }

  lemma LerpEnds(p: XY, q: XY)
    ensures Lerp(p, q, 0.0) == p && Lerp(p, q, 1.0) == q
  {
  }

  /** The m-th of the n + 1 evenly spaced points of a segment. */
  function Piece(p: XY, q: XY, n: nat, m: nat): XY
    requires n > 0
  {
    Lerp(p, q, m as real / n as real)
  }

  ghost predicate Even(out: seq<XY>, base: nat, p: XY, q: XY, n: nat, upTo: nat)
    requires n > 0
  {
    base + upTo < |out| && forall m :: 0 <= m <= upTo ==> out[base + m] == Piece(p, q, n, m)
  }

  lemma LerpSquares(p: XY, q: XY, s: real, t: real)
    ensures D2(Lerp(p, q, s), Lerp(p, q, t)) == Sq(t - s) * D2(p, q)
  {
    var a, b, k := Lerp(p, q, s), Lerp(p, q, t), t - s;
    var dx, dy := q.x - p.x, q.y - p.y;
    assert b.x - a.x == k * dx && b.y - a.y == k * dy;
    SqProduct(k, dx);
    SqProduct(k, dy);
    assert Sq(k) * (Sq(dx) + Sq(dy)) == Sq(k) * Sq(dx) + Sq(k) * Sq(dy);
  }

  lemma SqProduct(k: real, l: real)
    ensures Sq(k * l) == Sq(k) * Sq(l)
  {
  }

  /** Distance along a segment scales with the parameter. */
  lemma LerpDistance(metric: Metric, p: XY, q: XY, s: real, t: real)
    requires Euclidean(metric) && s <= t
    ensures metric(Lerp(p, q, s), Lerp(p, q, t)) == (t - s) * metric(p, q)
  {
    var a, b, k, l := Lerp(p, q, s), Lerp(p, q, t), t - s, metric(p, q);
    LerpSquares(p, q, s, t);
    Pythagoras(metric, p, q);
    Pythagoras(metric, a, b);
    SqProduct(k, l);
    assert k * l >= 0.0;
    SqOrder(metric(a, b), k * l);
  }

  /** Segment i of `points` became the evenly interpolated stretch of `out` from
      at[i-1] to at[i]. */
  ghost predicate Split(points: seq<XY>, out: seq<XY>, at: seq<nat>, i: nat)
    requires 0 < i < |at| <= |points|
  {
    at[i - 1] < at[i] && Even(out, at[i - 1], points[i - 1], points[i], at[i] - at[i - 1], at[i] - at[i - 1])
  }

  /** Distance from vertex j to the one before it. */
  function Gap(metric: Metric, points: seq<XY>, j: nat): real
    requires 0 < j < |points|
  {
    metric(points[j - 1], points[j])
  }

  /** Vertex i survives, at the same arc length as before. */
  ghost predicate Kept(metric: Metric, points: seq<XY>, out: seq<XY>, at: seq<nat>, i: nat)
    requires i < |at| <= |points|
  {
    at[i] < |out| && out[at[i]] == points[i] && Arc(metric, out, at[i]) == Arc(metric, points, i)
  }

  ghost predicate Spaced(metric: Metric, out: seq<XY>, spacing: real) {
    forall j :: 0 < j < |out| ==> Gap(metric, out, j) <= spacing
  }

  /** Where the vertices of `points` went in the resampled line. */
  ghost predicate Refines(metric: Metric, points: seq<XY>, out: seq<XY>, at: seq<nat>, spacing: real) {
    && 0 < |at| <= |points| && at[0] == 0 && at[|at| - 1] == |out| - 1
    && (forall i :: 0 <= i < |at| ==> Kept(metric, points, out, at, i))
    && (forall i :: 0 < i < |at| ==> Split(points, out, at, i))
    && Spaced(metric, out, spacing)
  }

  lemma {:induction false} ArcPrefix(metric: Metric, out: seq<XY>, more: seq<XY>, i: nat)
    requires i < |out| && out <= more
    ensures Arc(metric, more, i) == Arc(metric, out, i)
    decreases i
  {
    if i > 0 {
      ArcPrefix(metric, out, more, i - 1);
    }
  }

  lemma PieceStep(m: nat, n: nat, len: real)
    requires 0 < m <= n
    ensures (m - 1) as real / n as real <= m as real / n as real
    ensures (m as real / n as real - (m - 1) as real / n as real) * len == len / n as real
  {
    var r := n as real;
    assert m as real / r - (m - 1) as real / r == 1.0 / r > 0.0;
    assert (1.0 / r) * len == len / r;
  }

  lemma PieceFits(len: real, n: nat, spacing: real)
    requires n > 0 && len <= n as real * spacing
    ensures len / n as real <= spacing
  {
    var r := n as real;
    assert (len / r) * r == len;
    ProductOrder(len / r, spacing, r);
  }

  /** The piece between two neighbouring parameters of one segment. */
  lemma PieceLength(metric: Metric, p: XY, q: XY, n: nat, m: nat)
    requires Euclidean(metric) && 0 < m <= n
    ensures metric(Piece(p, q, n, m - 1), Piece(p, q, n, m)) == metric(p, q) / n as real
  {
    PieceStep(m, n, metric(p, q));
    LerpDistance(metric, p, q, (m - 1) as real / n as real, m as real / n as real);
  }

  lemma EndPieces(p: XY, q: XY, n: nat)
    requires n > 0
    ensures Piece(p, q, n, 0) == p && Piece(p, q, n, n) == q
  {
    assert n as real / n as real == 1.0;
  }

  /** n pieces of length `piece`, as repeated addition. */
  function Times(n: nat, piece: real): real {
    if n == 0 then 0.0 else Times(n - 1, piece) + piece
  }

  lemma {:induction false} TimesIsProduct(n: nat, piece: real)
    ensures Times(n, piece) == n as real * piece
  {
    if n > 0 {
      TimesIsProduct(n - 1, piece);
      assert n as real * piece == (n - 1) as real * piece + piece;
    }
  }

  /** Appending the pieces of one segment, starting from its first vertex. */
  method AppendPieces(metric: Metric, out0: seq<XY>, p: XY, q: XY, n: nat, ghost piece: real) returns (out: seq<XY>)
    requires |out0| > 0 && out0[|out0| - 1] == p && n > 0
    requires forall m :: 0 < m <= n ==> metric(Piece(p, q, n, m - 1), Piece(p, q, n, m)) == piece
    ensures Appended(metric, out0, out, p, q, n, piece)
  {
    out := out0;
    EndPieces(p, q, n);
    for i := 1 to n + 1
      invariant out0 <= out && |out| == |out0| + i - 1
      invariant Even(out, |out0| - 1, p, q, n, i - 1)
      invariant forall j :: |out0| <= j < |out| ==> Gap(metric, out, j) == piece
      invariant Arc(metric, out, |out| - 1) == Arc(metric, out0, |out0| - 1) + Times(i - 1, piece)
    {
      var next := out + [Piece(p, q, n, i)];
      ArcPrefix(metric, out, next, |out| - 1);
      assert out[|out0| - 1 + (i - 1)] == Piece(p, q, n, i - 1);
      forall j | |out0| <= j < |next| ensures Gap(metric, next, j) == piece {
        assert j < |out| ==> Gap(metric, out, j) == piece;
        assert j == |out| ==> next[j - 1] == Piece(p, q, n, i - 1) && next[j] == Piece(p, q, n, i);
      }
      out := next;
    }
    assert out[|out0| - 1 + n] == Piece(p, q, n, n);
  }

  ghost predicate Appended(metric: Metric, out0: seq<XY>, out: seq<XY>, p: XY, q: XY, n: nat, piece: real)
    requires n > 0 && |out0| > 0
  {
    && out0 <= out && |out| == |out0| + n && out[|out| - 1] == q
    && Even(out, |out0| - 1, p, q, n, n)
    && (forall j :: |out0| <= j < |out| ==> Gap(metric, out, j) == piece)
    && Arc(metric, out, |out| - 1) == Arc(metric, out0, |out0| - 1) + Times(n, piece)
  }

  ghost predicate Fewest(metric: Metric, points: seq<XY>, at: seq<nat>, spacing: real)
    requires Euclidean(metric) && spacing > 0.0 && |at| <= |points|
  {
    forall i :: 0 < i < |at| ==> at[i] == at[i - 1] + Pieces(Gap(metric, points, i), spacing)
  }

  lemma FewestStep(metric: Metric, points: seq<XY>, at: seq<nat>, at': seq<nat>, n: nat, spacing: real)
    requires Euclidean(metric) && spacing > 0.0 && 0 < |at| < |points| && Fewest(metric, points, at, spacing)
    requires at' == at + [at[|at| - 1] + n] && n == Pieces(Gap(metric, points, |at|), spacing)
    ensures Fewest(metric, points, at', spacing)
  {
    forall i | 0 < i < |at'| ensures at'[i] == at'[i - 1] + Pieces(Gap(metric, points, i), spacing) {
      assert i < |at| ==> at[i] == at[i - 1] + Pieces(Gap(metric, points, i), spacing);
    }
  }

  /** Every original vertex survives in order, neighbours are at most `maxSpacing`
      apart, and each segment is cut into the fewest pieces that allows. */
  method ResamplePolyline(metric: Metric, points: seq<XY>, maxSpacing: real)
    returns (out: seq<XY>, ghost at: seq<nat>)
    requires Euclidean(metric) && maxSpacing > 0.0
    ensures |points| < 2 ==> out == points
    ensures points != [] ==> |at| == |points| && Refines(metric, points, out, at, maxSpacing)
    ensures points != [] ==> Fewest(metric, points, at, maxSpacing)
  {
    at := if points == [] then [] else [0];
    if |points| < 2 {
      return points, at;
    }
    out := [points[0]];
    for k := 0 to |points| - 1
      invariant |at| == k + 1 && Refines(metric, points, out, at, maxSpacing)
      invariant Fewest(metric, points, at, maxSpacing)
    {
      assert Kept(metric, points, out, at, k);
      var p, q := points[k], points[k + 1];
      var n := Pieces(metric(p, q), maxSpacing);
      ghost var piece := metric(p, q) / n as real;
      EqualPieces(metric, p, q, n, maxSpacing);
      var longer := AppendPieces(metric, out, p, q, n, piece);
      ghost var at' := at + [|longer| - 1];
      RefinesStep(metric, points, out, longer, at, at', n, piece, maxSpacing);
      FewestStep(metric, points, at, at', n, maxSpacing);
      out, at := longer, at';
    }
  }

  lemma EqualPieces(metric: Metric, p: XY, q: XY, n: nat, spacing: real)
    requires Euclidean(metric) && spacing > 0.0 && n == Pieces(metric(p, q), spacing)
    ensures var piece := metric(p, q) / n as real;
            && (forall m :: 0 < m <= n ==> metric(Piece(p, q, n, m - 1), Piece(p, q, n, m)) == piece)
            && piece <= spacing && Times(n, piece) == metric(p, q)
  {
    var piece := metric(p, q) / n as real;
    forall m | 0 < m <= n ensures metric(Piece(p, q, n, m - 1), Piece(p, q, n, m)) == piece {
      PieceLength(metric, p, q, n, m);
    }
    PieceFits(metric(p, q), n, spacing);
    TimesIsProduct(n, piece);
  }

  lemma EvenStays(out: seq<XY>, longer: seq<XY>, base: nat, p: XY, q: XY, n: nat)
    requires n > 0 && out <= longer && Even(out, base, p, q, n, n)
    ensures Even(longer, base, p, q, n, n)
  {
  }

  lemma KeptStays(metric: Metric, points: seq<XY>, out: seq<XY>, longer: seq<XY>, at: seq<nat>, at': seq<nat>, i: nat)
    requires i < |at| <= |points| && out <= longer && at <= at' && |at'| <= |points|
    requires Kept(metric, points, out, at, i)
    ensures Kept(metric, points, longer, at', i)
  {
    ArcPrefix(metric, out, longer, at[i]);
  }

  lemma KeptStep(metric: Metric, points: seq<XY>, out: seq<XY>, longer: seq<XY>, at: seq<nat>, at': seq<nat>)
    requires 0 < |at| < |points| && 0 < |out| && out <= longer && at' == at + [|longer| - 1]
    requires forall i :: 0 <= i < |at| ==> Kept(metric, points, out, at, i)
    requires Kept(metric, points, longer, at', |at|)
    ensures forall i :: 0 <= i < |at'| ==> Kept(metric, points, longer, at', i)
  {
    forall i | 0 <= i < |at| ensures Kept(metric, points, longer, at', i) {
      KeptStays(metric, points, out, longer, at, at', i);
    }
  }

  lemma SplitsStep(points: seq<XY>, out: seq<XY>, longer: seq<XY>, at: seq<nat>, at': seq<nat>, n: nat)
    requires 0 < |at| < |points| && at[|at| - 1] == |out| - 1 && out <= longer && |longer| == |out| + n && n > 0
    requires forall i :: 0 < i < |at| ==> Split(points, out, at, i)
    requires Even(longer, |out| - 1, points[|at| - 1], points[|at|], n, n)
    requires at' == at + [|longer| - 1]
    ensures forall i :: 0 < i < |at'| ==> Split(points, longer, at', i)
  {
    forall i | 0 < i < |at'| ensures Split(points, longer, at', i) {
      if i < |at| {
        assert Split(points, out, at, i) && at'[i - 1] == at[i - 1] && at'[i] == at[i];
        EvenStays(out, longer, at[i - 1], points[i - 1], points[i], at[i] - at[i - 1]);
      } else {
        assert at'[i - 1] == |out| - 1 && at'[i] == |longer| - 1;
      }
    }
  }

  lemma SpacedStep(metric: Metric, out: seq<XY>, longer: seq<XY>, piece: real, spacing: real)
    requires out <= longer && Spaced(metric, out, spacing) && piece <= spacing
    requires forall j :: |out| <= j < |longer| && 0 < j ==> Gap(metric, longer, j) == piece
    ensures Spaced(metric, longer, spacing)
  {
    forall j | 0 < j < |longer| ensures Gap(metric, longer, j) <= spacing {
      if j < |out| { assert Gap(metric, out, j) <= spacing; }
    }
  }

  lemma RefinesStep(metric: Metric, points: seq<XY>, out: seq<XY>, longer: seq<XY>, at: seq<nat>, at': seq<nat>,
                    n: nat, piece: real, spacing: real)
    requires |at| < |points| && Refines(metric, points, out, at, spacing) && n > 0 && piece <= spacing
    requires Appended(metric, out, longer, points[|at| - 1], points[|at|], n, piece)
    requires Times(n, piece) == metric(points[|at| - 1], points[|at|])
    requires at' == at + [|longer| - 1]
    ensures Refines(metric, points, longer, at', spacing)
  {
    assert Kept(metric, points, out, at, |at| - 1);
    KeptStep(metric, points, out, longer, at, at');
    SplitsStep(points, out, longer, at, at', n);
    SpacedStep(metric, out, longer, piece, spacing);
  }

  lemma {:induction false} VerticesInOrder(points: seq<XY>, out: seq<XY>, at: seq<nat>, i: nat, j: nat)
    requires |at| <= |points| && i < j < |at| && forall k :: 0 < k < |at| ==> Split(points, out, at, k)
    ensures at[i] < at[j]
    decreases j
  {
    assert Split(points, out, at, j);
    if i < j - 1 {
      VerticesInOrder(points, out, at, i, j - 1);
    }
  }

  /** Resampling preserves arc length at every kept vertex, so the whole line too. */
  lemma ResamplingKeepsLength(metric: Metric, points: seq<XY>, out: seq<XY>, at: seq<nat>, spacing: real)
    requires |at| == |points| && Refines(metric, points, out, at, spacing)
    ensures Total(metric, out) == Total(metric, points)
    ensures forall i, j :: 0 <= i < j < |at| ==> at[i] < at[j]
  {
    assert Kept(metric, points, out, at, |at| - 1);
    forall i, j | 0 <= i < j < |at| ensures at[i] < at[j] {
      VerticesInOrder(points, out, at, i, j);
    }
  }

  datatype Stations = Stations(start: real, end: real)

  function RouteStations(metric: Metric, polyline: seq<XY>, margin: real): (r: Result<Stations, real>)
    ensures r.Ok? ==> r.value.start == margin && Total(metric, polyline) - r.value.end == margin && r.value.start < r.value.end
    ensures r.Err? <==> Total(metric, polyline) <= 2.0 * margin
  {
    var total := Total(metric, polyline);
    if total - margin <= margin then Err(total) else Ok(Stations(margin, total - margin))
  }

  /** The scored stations do not depend on the spacing the route was emitted with. */
  lemma StationsSurviveResampling(metric: Metric, points: seq<XY>, out: seq<XY>, at: seq<nat>, spacing: real, margin: real)
    requires points == [] ==> out == points
    requires points != [] ==> |at| == |points| && Refines(metric, points, out, at, spacing)
    ensures RouteStations(metric, out, margin) == RouteStations(metric, points, margin)
  {
    if points != [] {
      ResamplingKeepsLength(metric, points, out, at, spacing);
    }
  }
}
