/** Scoring windows: projection of odometry onto the route polyline, and the
    stamps between two stations after the warm-up. */
module Window {
  import opened Prelude
  import opened Plane
  import opened Polyline

  /** A float result: zero-length segments divide zero by zero. */
  datatype Num = Num(r: real) | NaN

  function DotProduct(p: XY, a: XY, b: XY): real {
    (p.x - a.x) * (b.x - a.x) + (p.y - a.y) * (b.y - a.y)
  }

  function Clip(v: real): real {
    if v < 0.0 then 0.0 else if v > 1.0 then 1.0 else v
  }

  /** Parameter of the nearest point of one segment, clamped to its ends. */
  function Nearest(p: XY, a: XY, b: XY): Num {
    if D2(a, b) == 0.0 then NaN else Num(Clip(DotProduct(p, a, b) / D2(a, b)))
  }

  function SegmentD2(p: XY, a: XY, b: XY): Num {
    match Nearest(p, a, b)
    case NaN => NaN
    case Num(t) => Num(D2(p, Lerp(a, b, t)))
  }

  /** Change of a quadratic with second coefficient `len` and slope `dot` at zero
      between the parameters t and u. */
  function Change(t: real, u: real, len: real, dot: real): real {
    Sq(u - t) * len + 2.0 * ((u - t) * (t * len - dot))
  }

  lemma ChangeAdds(t: real, u: real, len: real, dot: real, len': real, dot': real)
    ensures Change(t, u, len, dot) + Change(t, u, len', dot') == Change(t, u, len + len', dot + dot')
  {
  }

  lemma OneAxis(d: real, e: real, t: real, u: real)
    ensures Sq(u * d - e) - Sq(t * d - e) == Change(t, u, d * d, e * d)
  {
  }

  lemma AxisForm(p: XY, a: XY, b: XY, u: real, dx: real, dy: real, ex: real, ey: real)
    requires dx == b.x - a.x && dy == b.y - a.y && ex == p.x - a.x && ey == p.y - a.y
    ensures D2(p, Lerp(a, b, u)) == Sq(u * dx - ex) + Sq(u * dy - ey)
  {
  }

  /** Squared distance along a segment is a quadratic in the parameter. */
  lemma DistanceIsQuadratic(p: XY, a: XY, b: XY, t: real, u: real)
    ensures D2(p, Lerp(a, b, u)) - D2(p, Lerp(a, b, t)) == Change(t, u, D2(a, b), DotProduct(p, a, b))
  {
    var dx, dy, ex, ey := b.x - a.x, b.y - a.y, p.x - a.x, p.y - a.y;
    AxisForm(p, a, b, t, dx, dy, ex, ey);
    AxisForm(p, a, b, u, dx, dy, ex, ey);
    OneAxis(dx, ex, t, u);
    OneAxis(dy, ey, t, u);
    ChangeAdds(t, u, dx * dx, ex * dx, dy * dy, ey * dy);
    CoefficientForm(p, a, b, dx, dy, ex, ey);
  }

  lemma CoefficientForm(p: XY, a: XY, b: XY, dx: real, dy: real, ex: real, ey: real)
    requires dx == b.x - a.x && dy == b.y - a.y && ex == p.x - a.x && ey == p.y - a.y
    ensures D2(a, b) == dx * dx + dy * dy && DotProduct(p, a, b) == ex * dx + ey * dy
  {
  }

  lemma D2Sign(a: XY, b: XY)
    ensures D2(a, b) >= 0.0 && (D2(a, b) == 0.0 <==> a == b)
  {
    SqSign(b.x - a.x);
    SqSign(b.y - a.y);
  }

  lemma SqSign(k: real)
    ensures Sq(k) >= 0.0
    ensures k != 0.0 ==> Sq(k) > 0.0
    ensures k == 0.0 ==> Sq(k) == 0.0
  {
    if k > 0.0 { Positive(k, k, Sq(k)); } else if k < 0.0 { Positive(-k, -k, Sq(k)); }
  }

  lemma Positive(a: real, b: real, c: real)
    requires a > 0.0 && b > 0.0 && c == a * b
    ensures c > 0.0
  {
  }

  /** Clamping the projection gives the nearest point of the whole segment. */
  lemma NearestIsNearest(p: XY, a: XY, b: XY, u: real)
    requires a != b && 0.0 <= u <= 1.0
    ensures Nearest(p, a, b).Num? && 0.0 <= Nearest(p, a, b).r <= 1.0
    ensures D2(p, Lerp(a, b, Nearest(p, a, b).r)) <= D2(p, Lerp(a, b, u))
  {
    D2Sign(a, b);
    var len, dot := D2(a, b), DotProduct(p, a, b);
    var t := Nearest(p, a, b).r;
    DistanceIsQuadratic(p, a, b, t, u);
    ClampedSlope(len, dot, t, u);
    SqSign(u - t);
    NonNegative(Sq(u - t), len);
  }

  lemma NearestInRange(p: XY, a: XY, b: XY)
    requires a != b
    ensures Nearest(p, a, b).Num? && 0.0 <= Nearest(p, a, b).r <= 1.0
  {
    D2Sign(a, b);
  }

  lemma NonNegative(a: real, b: real)
    requires a >= 0.0 && b >= 0.0
    ensures a * b >= 0.0
  {
  }

  lemma ClampedSlope(len: real, dot: real, t: real, u: real)
    requires len > 0.0 && t == Clip(dot / len) && 0.0 <= u <= 1.0
    ensures (u - t) * (t * len - dot) >= 0.0
  {
    var q := dot / len;
    assert q * len == dot;
    if q < 0.0 {
      assert t * len - dot == -(q * len);
      NonNegative(-q, len);
      NonNegative(u, -(q * len));
    } else if q > 1.0 {
      assert t * len - dot == (1.0 - q) * len;
      NonNegative(q - 1.0, len);
      NonNegative(1.0 - u, (q - 1.0) * len);
      assert (u - t) * (t * len - dot) == (1.0 - u) * ((q - 1.0) * len);
    } else {
      assert t * len - dot == 0.0;
    }
  }

  // ---- the whole route ----

  /** numpy's argmin: the first NaN if there is one, else the first minimum. */
  function ArgMin(v: seq<Num>): (i: nat)
    requires v != []
    ensures i < |v|
    ensures NaN in v ==> v[i] == NaN
    ensures NaN !in v ==> forall j :: 0 <= j < |v| ==> v[i].r <= v[j].r && (j < i ==> v[i].r < v[j].r)
  {
    if |v| == 1 then 0
    else
      var n := |v| - 1;
      var i := ArgMin(v[..n]);
      assert v == v[..n] + [v[n]];
      if v[i].NaN? then i else if v[n].NaN? || v[n].r < v[i].r then n else i
  }

  function SquaredDistances(route: seq<XY>, p: XY): (v: seq<Num>)
    requires |route| >= 2
    ensures |v| == |route| - 1 && forall i :: 0 <= i < |v| ==> v[i] == SegmentD2(p, route[i], route[i + 1])
  {
    seq(|route| - 1, i requires 0 <= i < |route| - 1 => SegmentD2(p, route[i], route[i + 1]))
  }

  /** Any point of the route: a segment and a parameter on it. */
  function RoutePoint(route: seq<XY>, j: nat, u: real): XY
    requires j < |route| - 1
  {
    Lerp(route[j], route[j + 1], u)
  }

  /** Its arc length from the start. */
  function StationAt(metric: Metric, route: seq<XY>, j: nat, u: real): real
    requires j < |route| - 1
  {
    Arc(metric, route, j) + u * metric(route[j], route[j + 1])
  }

  datatype Projection = Projection(station: Num, lateral: Num)

  function ProjectOne(metric: Metric, route: seq<XY>, p: XY): Projection
    requires |route| >= 2
  {
    var i := ArgMin(SquaredDistances(route, p));
    match Nearest(p, route[i], route[i + 1])
    case NaN => Projection(NaN, NaN)
    case Num(t) =>
      Projection(Num(StationAt(metric, route, i, t)), Num(metric(p, RoutePoint(route, i, t))))
  }

  predicate NoRepeatedVertex(route: seq<XY>) {
    forall i :: 0 <= i < |route| - 1 ==> route[i] != route[i + 1]
  }

  /** q is the point of the route at arc length s. */
  ghost predicate AtStation(metric: Metric, route: seq<XY>, s: real, q: XY) {
    exists i, t :: 0 <= i < |route| - 1 && OnSegment(metric, route, s, q, i, t)
  }

  ghost predicate OnSegment(metric: Metric, route: seq<XY>, s: real, q: XY, i: nat, t: real)
    requires i < |route| - 1
  {
    0.0 <= t <= 1.0 && q == RoutePoint(route, i, t) && s == StationAt(metric, route, i, t)
  }

  /** `s` and `q` are the arc length and the place of a nearest point of the route. */
  ghost predicate NearestOnRoute(metric: Metric, route: seq<XY>, p: XY, s: real, q: XY) {
    && AtStation(metric, route, s, q) && 0.0 <= s <= Total(metric, route)
    && forall j, u :: 0 <= j < |route| - 1 && 0.0 <= u <= 1.0 ==> metric(p, q) <= metric(p, RoutePoint(route, j, u))
  }

  /** The returned lateral distance is the least over every point of the route,
      it is attained at the returned station, and the station is on the route. */
  lemma ProjectionIsNearest(metric: Metric, route: seq<XY>, p: XY) returns (s: real, q: XY)
    requires Euclidean(metric) && |route| >= 2 && NoRepeatedVertex(route)
    ensures ProjectOne(metric, route, p) == Projection(Num(s), Num(metric(p, q)))
    ensures NearestOnRoute(metric, route, p, s, q)
  {
    var i, t := ChosenSegment(metric, route, p);
    s, q := StationAt(metric, route, i, t), RoutePoint(route, i, t);
    ChosenIsNearest(metric, route, p, i, t);
  }

  lemma ChosenSegment(metric: Metric, route: seq<XY>, p: XY) returns (i: nat, t: real)
    requires |route| >= 2 && NoRepeatedVertex(route)
    ensures i < |route| - 1 && 0.0 <= t <= 1.0
    ensures ProjectOne(metric, route, p) == Projection(Num(StationAt(metric, route, i, t)), Num(metric(p, RoutePoint(route, i, t))))
    ensures NoNearerD2(route, p, RoutePoint(route, i, t))
  {
    i, t := ChosenIndex(metric, route, p);
    forall j, u | 0 <= j < |route| - 1 && 0.0 <= u <= 1.0
      ensures D2(p, RoutePoint(route, i, t)) <= D2(p, RoutePoint(route, j, u))
    {
      NoSegmentIsNearer(route, p, i, j, u);
    }
  }

  lemma ChosenIndex(metric: Metric, route: seq<XY>, p: XY) returns (i: nat, t: real)
    requires |route| >= 2 && NoRepeatedVertex(route)
    ensures i < |route| - 1 && 0.0 <= t <= 1.0 && i == ArgMin(SquaredDistances(route, p))
    ensures Nearest(p, route[i], route[i + 1]) == Num(t)
    ensures ProjectOne(metric, route, p) == Projection(Num(StationAt(metric, route, i, t)), Num(metric(p, RoutePoint(route, i, t))))
  {
    hide StationAt, RoutePoint, SegmentD2;
    i := ArgMin(SquaredDistances(route, p));
    NearestInRange(p, route[i], route[i + 1]);
    t := Nearest(p, route[i], route[i + 1]).r;
  }

  ghost predicate NoNearerD2(route: seq<XY>, p: XY, q: XY) {
    forall j, u :: 0 <= j < |route| - 1 && 0.0 <= u <= 1.0 ==> D2(p, q) <= D2(p, RoutePoint(route, j, u))
  }

  lemma ChosenIsNearest(metric: Metric, route: seq<XY>, p: XY, i: nat, t: real)
    requires Euclidean(metric) && i < |route| - 1 && 0.0 <= t <= 1.0 && NoNearerD2(route, p, RoutePoint(route, i, t))
    ensures NearestOnRoute(metric, route, p, StationAt(metric, route, i, t), RoutePoint(route, i, t))
  {
    var q := RoutePoint(route, i, t);
    forall j, u | 0 <= j < |route| - 1 && 0.0 <= u <= 1.0
      ensures metric(p, q) <= metric(p, RoutePoint(route, j, u))
    {
      MetricOrder(metric, p, q, RoutePoint(route, j, u));
    }
    assert OnSegment(metric, route, StationAt(metric, route, i, t), q, i, t);
    StationInRange(metric, route, i, t);
  }

  lemma NoSegmentIsNearer(route: seq<XY>, p: XY, i: nat, j: nat, u: real)
    requires |route| >= 2 && NoRepeatedVertex(route) && i == ArgMin(SquaredDistances(route, p))
    requires j < |route| - 1 && 0.0 <= u <= 1.0
    ensures Nearest(p, route[i], route[i + 1]).Num?
    ensures D2(p, RoutePoint(route, i, Nearest(p, route[i], route[i + 1]).r)) <= D2(p, RoutePoint(route, j, u))
  {
    var v := SquaredDistances(route, p);
    forall k | 0 <= k < |route| - 1 ensures v[k].Num? {
      NearestIsNearest(p, route[k], route[k + 1], 0.0);
    }
    NearestIsNearest(p, route[j], route[j + 1], u);
    var ti, tj := Nearest(p, route[i], route[i + 1]).r, Nearest(p, route[j], route[j + 1]).r;
    assert v[i].r == D2(p, RoutePoint(route, i, ti)) && v[j].r == D2(p, RoutePoint(route, j, tj));
    assert v[i].r <= v[j].r;
  }

  lemma MetricOrder(metric: Metric, p: XY, q: XY, r: XY)
    requires Euclidean(metric) && D2(p, q) <= D2(p, r)
    ensures metric(p, q) <= metric(p, r)
  {
    Pythagoras(metric, p, q);
    Pythagoras(metric, p, r);
    SqOrder(metric(p, q), metric(p, r));
  }

  lemma {:induction false} ArcGrows(metric: Metric, route: seq<XY>, i: nat, j: nat)
    requires Euclidean(metric) && i <= j < |route|
    ensures 0.0 <= Arc(metric, route, i) <= Arc(metric, route, j)
    decreases j
  {
    if i < j {
      ArcGrows(metric, route, i, j - 1);
    } else if i > 0 {
      ArcGrows(metric, route, i - 1, i - 1);
    }
  }

  lemma StationInRange(metric: Metric, route: seq<XY>, i: nat, t: real)
    requires Euclidean(metric) && i < |route| - 1 && 0.0 <= t <= 1.0
    ensures 0.0 <= StationAt(metric, route, i, t) <= Total(metric, route)
  {
    var l := metric(route[i], route[i + 1]);
    NonNegative(t, l);
    NonNegative(1.0 - t, l);
    ArcGrows(metric, route, i, i);
    ArcGrows(metric, route, i + 1, |route| - 1);
    assert Arc(metric, route, i + 1) == Arc(metric, route, i) + l;
  }

  /** A station is the length of the route walked up to its point. */
  lemma StationIsLengthWalked(metric: Metric, route: seq<XY>, i: nat, t: real)
    requires Euclidean(metric) && i < |route| - 1 && 0.0 <= t <= 1.0
    ensures StationAt(metric, route, i, t) == Total(metric, route[..i + 1] + [RoutePoint(route, i, t)])
  {
    var q := RoutePoint(route, i, t);
    var walked := route[..i + 1] + [q];
    LerpEnds(route[i], route[i + 1]);
    LerpDistance(metric, route[i], route[i + 1], 0.0, t);
    SameArc(metric, route, walked, i);
    assert walked[i] == route[i] && walked[i + 1] == q;
    assert Arc(metric, walked, i + 1) == Arc(metric, walked, i) + metric(route[i], q);
  }

  lemma {:induction false} SameArc(metric: Metric, a: seq<XY>, b: seq<XY>, i: nat)
    requires i < |a| && i < |b| && forall j :: 0 <= j <= i ==> a[j] == b[j]
    ensures Arc(metric, a, i) == Arc(metric, b, i)
  {
    if i > 0 { SameArc(metric, a, b, i - 1); }
  }

  /** One repeated vertex makes every projection NaN, wherever the point is. */
  lemma ProjectionIsNumberIff(metric: Metric, route: seq<XY>, p: XY)
    requires |route| >= 2
    ensures ProjectOne(metric, route, p).station.Num? <==> NoRepeatedVertex(route)
    ensures ProjectOne(metric, route, p).lateral.Num? <==> NoRepeatedVertex(route)
  {
    var v := SquaredDistances(route, p);
    forall j | 0 <= j < |route| - 1 ensures v[j] == NaN <==> route[j] == route[j + 1] {
      D2Sign(route[j], route[j + 1]);
    }
    if !NoRepeatedVertex(route) {
      var j :| 0 <= j < |route| - 1 && route[j] == route[j + 1];
      assert v[j] == NaN && v[ArgMin(v)] == NaN;
    }
  }

  function ProjectAll(metric: Metric, route: seq<XY>, xy: seq<XY>): (r: seq<Projection>)
    requires |route| >= 2
    ensures |r| == |xy| && forall k :: 0 <= k < |xy| ==> r[k] == ProjectOne(metric, route, xy[k])
  {
    seq(|xy|, k requires 0 <= k < |xy| => ProjectOne(metric, route, xy[k]))
  }

  method ProjectPoint(metric: Metric, route: seq<XY>, p: XY, ghost expected: Projection) returns (q: Projection)
    requires |route| >= 2 && expected == ProjectOne(metric, route, p)
    ensures q == expected
  {
    q := ProjectOne(metric, route, p);
  }

  /** Stations and lateral distances of every point, filled in one loop. */
  method Project(metric: Metric, route: seq<XY>, xy: seq<XY>)
    returns (found: bool, stations: array<Num>, lateral: array<Num>)
    ensures found <==> |route| >= 2 || xy == []
    ensures fresh(stations) && fresh(lateral) && stations.Length == lateral.Length == |xy|
    ensures found && |route| >= 2 ==> forall k :: 0 <= k < |xy| ==>
              ProjectAll(metric, route, xy)[k] == Projection(stations[k], lateral[k])
  {
    hide ProjectOne;
    stations, lateral := new Num[|xy|], new Num[|xy|];
    if |route| < 2 {
      found := xy == [];  // argmin of an empty sequence raises
      return;
    }
    found := true;
    ghost var all := ProjectAll(metric, route, xy);
    for k := 0 to |xy|
      invariant forall j :: 0 <= j < k ==> all[j] == Projection(stations[j], lateral[j])
    {
      var p := ProjectPoint(metric, route, xy[k], all[k]);
      stations[k], lateral[k] := p.station, p.lateral;
    }
  }

  datatype WindowError = EmptyWindow | WarmupConsumesRun | NoRoute

  type Stamps = (int, int)

  /** Sample i counts: on the scored stretch and past the warm-up. A NaN station
      fails both comparisons. */
  predicate InWindow(station: Num, stamp: int, first: int, start: real, end: real, warmup: int) {
    station.Num? && start <= station.r <= end && stamp >= first + warmup
  }

  function InWindowFlags(metric: Metric, stamps: seq<int>, xy: seq<XY>, route: seq<XY>, start: real, end: real,
                         warmup: int): (ok: seq<bool>)
    requires |stamps| == |xy| > 0 && |route| >= 2
    ensures |ok| == |stamps|
    ensures forall i :: 0 <= i < |ok| ==>
              (ok[i] <==> InWindow(ProjectOne(metric, route, xy[i]).station, stamps[i], stamps[0], start, end, warmup))
  {
    seq(|stamps|, i requires 0 <= i < |stamps| =>
      InWindow(ProjectOne(metric, route, xy[i]).station, stamps[i], stamps[0], start, end, warmup))
  }

  function FirstTrue(ok: seq<bool>): (i: nat)
    requires true in ok
    ensures i < |ok| && ok[i] && forall j :: 0 <= j < i ==> !ok[j]
  {
    if ok[0] then 0 else 1 + FirstTrue(ok[1..])
  }

  function LastTrue(ok: seq<bool>): (i: nat)
    requires true in ok
    ensures i < |ok| && ok[i] && forall j :: i < j < |ok| ==> !ok[j]
  {
    var n := |ok| - 1;
    if ok[n] then n else
      assert ok == ok[..n] + [ok[n]];
      LastTrue(ok[..n])
  }

  function SpatialWindow(metric: Metric, stamps: seq<int>, xy: seq<XY>, route: seq<XY>, start: real, end: real,
                         warmup: int): Result<Stamps, WindowError>
    requires |stamps| == |xy| > 0
  {
    if |route| < 2 then Err(NoRoute)
    else
      var ok := InWindowFlags(metric, stamps, xy, route, start, end, warmup);
      if true !in ok then Err(EmptyWindow) else Ok((stamps[FirstTrue(ok)], stamps[LastTrue(ok)]))
  }

  function StaticWindow(t0: int, end: int, warmup: int): (r: Result<Stamps, WindowError>)
    ensures r.Ok? ==> r.value.0 - t0 == warmup && r.value.1 == end && r.value.0 < r.value.1
    ensures r.Err? <==> end - t0 <= warmup
  {
    if t0 + warmup >= end then Err(WarmupConsumesRun) else Ok((t0 + warmup, end))
  }

  /** lo and hi are the tightest span of the samples that count: in order and
      attained at both ends. */
  ghost predicate Hull(stamps: seq<int>, ok: seq<bool>, lo: int, hi: int)
    requires |stamps| == |ok| > 0
  {
    && lo <= hi
    && (forall i :: 0 <= i < |ok| && ok[i] ==> lo <= stamps[i] <= hi)
    && (exists i :: 0 <= i < |ok| && ok[i] && stamps[i] == lo)
    && exists i :: 0 <= i < |ok| && ok[i] && stamps[i] == hi
  }

  lemma FirstAndLastAreHull(stamps: seq<int>, ok: seq<bool>)
    requires |stamps| == |ok| > 0 && true in ok
    requires forall i, j :: 0 <= i <= j < |stamps| ==> stamps[i] <= stamps[j]
    ensures Hull(stamps, ok, stamps[FirstTrue(ok)], stamps[LastTrue(ok)])
  {
    var a, b := FirstTrue(ok), LastTrue(ok);
    assert a <= b;
  }

  lemma WindowNeedsRoute(metric: Metric, stamps: seq<int>, xy: seq<XY>, route: seq<XY>, start: real, end: real, warmup: int)
    requires |stamps| == |xy| > 0
    ensures SpatialWindow(metric, stamps, xy, route, start, end, warmup).Ok? ==> |route| >= 2
  {
  }

  /** For sorted stamps the spatial window is the hull of the samples that count. */
  lemma SpatialWindowIsHull(metric: Metric, stamps: seq<int>, xy: seq<XY>, route: seq<XY>, start: real, end: real,
                            warmup: int)
    requires |stamps| == |xy| > 0 && |route| >= 2
    requires forall i, j :: 0 <= i <= j < |stamps| ==> stamps[i] <= stamps[j]
    ensures var ok, w := InWindowFlags(metric, stamps, xy, route, start, end, warmup),
                         SpatialWindow(metric, stamps, xy, route, start, end, warmup);
            && (w.Err? <==> forall i :: 0 <= i < |ok| ==> !ok[i])
            && (w.Ok? ==> Hull(stamps, ok, w.value.0, w.value.1) && stamps[0] + warmup <= w.value.0)
  {
    var ok := InWindowFlags(metric, stamps, xy, route, start, end, warmup);
    if true in ok {
      FirstAndLastAreHull(stamps, ok);
    }
  }

  /** Which samples count: those projected to a station between the two bounds, at least
      the warm-up after the first sample. The window is their hull, and is refused
      exactly when there is none. */
  lemma SpatialWindowSpans(metric: Metric, stamps: seq<int>, xy: seq<XY>, route: seq<XY>, start: real, end: real,
                           warmup: int)
    requires |stamps| == |xy| > 0 && |route| >= 2
    requires forall i, j :: 0 <= i <= j < |stamps| ==> stamps[i] <= stamps[j]
    ensures var w := SpatialWindow(metric, stamps, xy, route, start, end, warmup);
            match w
            case Err(_) =>
              forall i :: 0 <= i < |xy| && ProjectOne(metric, route, xy[i]).station.Num?
                          && start <= ProjectOne(metric, route, xy[i]).station.r <= end ==>
                            stamps[i] - stamps[0] < warmup
            case Ok((lo, hi)) =>
              && lo <= hi
              && (forall i :: 0 <= i < |xy| && ProjectOne(metric, route, xy[i]).station.Num?
                              && start <= ProjectOne(metric, route, xy[i]).station.r <= end ==>
                                stamps[i] - stamps[0] < warmup || lo <= stamps[i] <= hi)
              && (exists i :: 0 <= i < |xy| && ProjectOne(metric, route, xy[i]).station.Num?
                              && start <= ProjectOne(metric, route, xy[i]).station.r <= end
                              && stamps[i] - stamps[0] >= warmup && stamps[i] == lo)
              && exists i :: 0 <= i < |xy| && ProjectOne(metric, route, xy[i]).station.Num?
                             && start <= ProjectOne(metric, route, xy[i]).station.r <= end
                             && stamps[i] - stamps[0] >= warmup && stamps[i] == hi
  {
    hide ProjectOne;
    SpatialWindowIsHull(metric, stamps, xy, route, start, end, warmup);
    var ok := InWindowFlags(metric, stamps, xy, route, start, end, warmup);
    forall i | 0 <= i < |xy|
      ensures ok[i] <==> ProjectOne(metric, route, xy[i]).station.Num?
                         && start <= ProjectOne(metric, route, xy[i]).station.r <= end && stamps[i] - stamps[0] >= warmup
    {
    }
  }

  /** A route with one repeated vertex scores nothing, whatever the ego drove. */
  lemma RepeatedVertexEmptiesWindow(metric: Metric, stamps: seq<int>, xy: seq<XY>, route: seq<XY>, start: real,
                                    end: real, warmup: int)
    requires |stamps| == |xy| > 0 && |route| >= 2 && !NoRepeatedVertex(route)
    ensures SpatialWindow(metric, stamps, xy, route, start, end, warmup) == Err(EmptyWindow)
  {
    var ok := InWindowFlags(metric, stamps, xy, route, start, end, warmup);
    forall i | 0 <= i < |ok| ensures !ok[i] {
      ProjectionIsNumberIff(metric, route, xy[i]);
    }
  }
}
