/** The scoring window of one run, resolved in simulation and in wall time. */
module RunWindow {
  import opened Prelude
  import opened Plane
  import opened ClockFit
  import opened ClockSlope
  import Polyline
  import Window

  const WARMUP_NS: int := 20_000_000_000

  /** Python's round(): to the nearest integer, halves to even. */
  function Round(x: real): (n: int)
    ensures x - 0.5 <= n as real <= x + 0.5
    ensures n as real == x - 0.5 || n as real == x + 0.5 ==> n % 2 == 0
  {
    var f := x.Floor;
    var d := x - f as real;
    if d < 0.5 || (d == 0.5 && f % 2 == 0) then f else f + 1
  }

  lemma RoundIsMonotone(x: real, y: real)
    requires x <= y
    ensures Round(x) <= Round(y)
  {
    assert x.Floor <= y.Floor;
  }

  datatype Bounds = Bounds(fit: AffineFit, simLo: int, simHi: int, wallLo: int, wallHi: int)

  datatype Failure = NoFit | NotFinite | NoWindow(why: Window.WindowError)

  function Least(v: seq<int>): (m: int)
    requires v != []
    ensures m in v && forall i :: 0 <= i < |v| ==> m <= v[i]
  {
    var n := |v| - 1;
    assert v == v[..n] + [v[n]];
    if n == 0 then v[0] else var m := Least(v[..n]); if v[n] < m then v[n] else m
  }

  function Greatest(v: seq<int>): (m: int)
    requires v != []
    ensures m in v && forall i :: 0 <= i < |v| ==> v[i] <= m
  {
    var n := |v| - 1;
    assert v == v[..n] + [v[n]];
    if n == 0 then v[0] else var m := Greatest(v[..n]); if v[n] > m then v[n] else m
  }

  /** The odometry and route a closed-loop run is gated on. */
  datatype Drive = Drive(stamps: seq<int>, xy: seq<XY>, route: seq<XY>, startM: real, endM: real)

  /** Which arm: a closed-loop run windows on its drive, every other arm on the
      whole clock. */
  datatype Arm = ClosedLoop(drive: Drive) | Other

  function ResolveWindow(metric: Metric, sim: seq<int>, wall: seq<int>, arm: Arm): Result<Bounds, Failure>
    requires arm.ClosedLoop? ==> |arm.drive.stamps| == |arm.drive.xy| > 0
  {
    match FitSimWallAffine(sim, wall)
    case ValueError => Err(NoFit)
    case NotANumber => Err(NotFinite)
    case Fitted(fit) =>
      match arm
      case ClosedLoop(d) =>
        (match Window.SpatialWindow(metric, d.stamps, d.xy, d.route, d.startM, d.endM, WARMUP_NS)
         case Err(e) => Err(NoWindow(e))
         case Ok(w) => Ok(Bounds(fit, w.0, w.1, Round(SimToWall(fit, w.0 as real)), Round(SimToWall(fit, w.1 as real)))))
      case Other =>
        (match Window.StaticWindow(Least(wall), Greatest(wall), WARMUP_NS)
         case Err(e) => Err(NoWindow(e))
         case Ok(w) =>
           if fit.slope == 0.0 then Err(NotFinite)
           else Ok(Bounds(fit, Round(WallToSim(fit, w.0 as real)), Round(WallToSim(fit, w.1 as real)), w.0, w.1)))
  }

  lemma ConversionIsMonotone(fit: AffineFit, a: real, b: real)
    requires a <= b
    ensures fit.slope >= 0.0 ==> SimToWall(fit, a) <= SimToWall(fit, b)
    ensures fit.slope > 0.0 ==> WallToSim(fit, a) <= WallToSim(fit, b)
  {
    if fit.slope >= 0.0 {
      Window.NonNegative(fit.slope, b - a);
      assert fit.slope * (b - a) == fit.slope * b - fit.slope * a;
    }
    if fit.slope > 0.0 {
      var p, q := WallToSim(fit, a), WallToSim(fit, b);
      assert p * fit.slope == a - fit.intercept && q * fit.slope == b - fit.intercept;
      Polyline.ProductOrder(q, p, fit.slope);
    }
  }

  lemma ConversionReverses(fit: AffineFit, a: real, b: real)
    requires a <= b && fit.slope < 0.0
    ensures SimToWall(fit, a) >= SimToWall(fit, b) && WallToSim(fit, a) >= WallToSim(fit, b)
  {
    Window.NonNegative(-fit.slope, b - a);
    assert -fit.slope * (b - a) == fit.slope * a - fit.slope * b;
    var p, q := WallToSim(fit, a), WallToSim(fit, b);
    assert p * fit.slope == a - fit.intercept && q * fit.slope == b - fit.intercept;
    Polyline.ProductOrder(p, q, -fit.slope);
  }

  lemma RoundedConversions(fit: AffineFit, a: int, b: int)
    requires a <= b
    ensures fit.slope >= 0.0 ==> Round(SimToWall(fit, a as real)) <= Round(SimToWall(fit, b as real))
    ensures fit.slope > 0.0 ==> Round(WallToSim(fit, a as real)) <= Round(WallToSim(fit, b as real))
  {
    hide Round, SimToWall, WallToSim;
    ConversionIsMonotone(fit, a as real, b as real);
    if fit.slope >= 0.0 {
      RoundIsMonotone(SimToWall(fit, a as real), SimToWall(fit, b as real));
    }
    if fit.slope > 0.0 {
      RoundIsMonotone(WallToSim(fit, a as real), WallToSim(fit, b as real));
    }
  }

  lemma RoundedReversals(fit: AffineFit, a: int, b: int)
    requires a <= b && fit.slope < 0.0
    ensures Round(SimToWall(fit, a as real)) >= Round(SimToWall(fit, b as real))
    ensures Round(WallToSim(fit, a as real)) >= Round(WallToSim(fit, b as real))
  {
    hide Round, SimToWall, WallToSim;
    ConversionReverses(fit, a as real, b as real);
    RoundIsMonotone(SimToWall(fit, b as real), SimToWall(fit, a as real));
    RoundIsMonotone(WallToSim(fit, b as real), WallToSim(fit, a as real));
  }

  ghost predicate SortedOdometry(arm: Arm) {
    arm.ClosedLoop? ==> |arm.drive.stamps| == |arm.drive.xy| > 0 && Nondecreasing(arm.drive.stamps)
  }

  /** What the window is resolved from: in its own domain it is in order, in the
      other both ends are converted and rounded. */
  ghost predicate Resolved(w: Bounds, arm: Arm) {
    match arm
    case ClosedLoop(_) =>
      && w.simLo <= w.simHi
      && w.wallLo == Round(SimToWall(w.fit, w.simLo as real)) && w.wallHi == Round(SimToWall(w.fit, w.simHi as real))
    case Other =>
      && w.wallLo < w.wallHi && w.fit.slope != 0.0
      && w.simLo == Round(WallToSim(w.fit, w.wallLo as real)) && w.simHi == Round(WallToSim(w.fit, w.wallHi as real))
  }

  lemma WindowIsResolved(metric: Metric, sim: seq<int>, wall: seq<int>, arm: Arm, w: Bounds)
    requires SortedOdometry(arm) && ResolveWindow(metric, sim, wall, arm) == Ok(w)
    ensures FitSimWallAffine(sim, wall) == Fitted(w.fit) && Resolved(w, arm)
  {
    hide FitSimWallAffine, SimToWall, WallToSim, Round, Window.SpatialWindow, Window.InWindowFlags, Window.StaticWindow;
    match arm
    case ClosedLoop(d) =>
      Window.WindowNeedsRoute(metric, d.stamps, d.xy, d.route, d.startM, d.endM, WARMUP_NS);
      Window.SpatialWindowIsHull(metric, d.stamps, d.xy, d.route, d.startM, d.endM, WARMUP_NS);
    case Other =>
  }

  /** A closed-loop run's simulation bounds: the hull of the odometry samples projected
      between the route's two stations, 20 s or more after the first sample. */
  lemma ClosedLoopSpans(metric: Metric, sim: seq<int>, wall: seq<int>, d: Drive, w: Bounds)
    requires |d.stamps| == |d.xy| > 0 && Nondecreasing(d.stamps)
    requires ResolveWindow(metric, sim, wall, ClosedLoop(d)) == Ok(w)
    ensures |d.route| >= 2 && w.simLo <= w.simHi
    ensures forall i :: 0 <= i < |d.xy| && Window.ProjectOne(metric, d.route, d.xy[i]).station.Num?
                        && d.startM <= Window.ProjectOne(metric, d.route, d.xy[i]).station.r <= d.endM ==>
                          d.stamps[i] - d.stamps[0] < 20_000_000_000 || w.simLo <= d.stamps[i] <= w.simHi
    ensures exists i :: 0 <= i < |d.xy| && Window.ProjectOne(metric, d.route, d.xy[i]).station.Num?
                        && d.startM <= Window.ProjectOne(metric, d.route, d.xy[i]).station.r <= d.endM
                        && d.stamps[i] - d.stamps[0] >= 20_000_000_000 && d.stamps[i] == w.simLo
    ensures exists i :: 0 <= i < |d.xy| && Window.ProjectOne(metric, d.route, d.xy[i]).station.Num?
                        && d.startM <= Window.ProjectOne(metric, d.route, d.xy[i]).station.r <= d.endM
                        && d.stamps[i] - d.stamps[0] >= 20_000_000_000 && d.stamps[i] == w.simHi
    ensures w.wallLo == Round(SimToWall(w.fit, w.simLo as real)) && w.wallHi == Round(SimToWall(w.fit, w.simHi as real))
  {
    hide FitSimWallAffine, SimToWall, Round, Window.SpatialWindow, Window.ProjectOne;
    Window.WindowNeedsRoute(metric, d.stamps, d.xy, d.route, d.startM, d.endM, WARMUP_NS);
    Window.SpatialWindowSpans(metric, d.stamps, d.xy, d.route, d.startM, d.endM, WARMUP_NS);
  }

  /** Any other run's wall bounds: from 20 s after the earliest clock receipt to the
      latest, and never empty. */
  lemma StaticSpans(metric: Metric, sim: seq<int>, wall: seq<int>, w: Bounds)
    requires ResolveWindow(metric, sim, wall, Other) == Ok(w)
    ensures w.wallLo < w.wallHi
    ensures (forall i :: 0 <= i < |wall| ==> w.wallLo - 20_000_000_000 <= wall[i] <= w.wallHi)
    ensures w.wallLo - 20_000_000_000 in wall && w.wallHi in wall
    ensures w.fit.slope != 0.0
    ensures w.simLo == Round(WallToSim(w.fit, w.wallLo as real)) && w.simHi == Round(WallToSim(w.fit, w.wallHi as real))
  {
    hide FitSimWallAffine, WallToSim, Round, Least, Greatest;
    FitExistsIff(sim, wall);
  }

  /** A resolved window is in order in both domains exactly when the clock series do
      not fall against each other, or rounding to a nanosecond has left no width in
      one of the domains. */
  lemma WindowOrderedIff(metric: Metric, sim: seq<int>, wall: seq<int>, arm: Arm, w: Bounds)
    requires SortedOdometry(arm) && ResolveWindow(metric, sim, wall, arm) == Ok(w)
    ensures |sim| == |wall|
    ensures w.simLo <= w.simHi && w.wallLo <= w.wallHi
        <==> ForwardClock(sim, wall) || w.simLo == w.simHi || w.wallLo == w.wallHi
  {
    hide FitSimWallAffine, SimToWall, WallToSim, Round, ResolveWindow, ForwardClock;
    WindowIsResolved(metric, sim, wall, arm, w);
    SlopeSignIsCovariance(sim, wall, w.fit);
    var a, b := if arm.ClosedLoop? then w.simLo else w.wallLo, if arm.ClosedLoop? then w.simHi else w.wallHi;
    RoundedConversions(w.fit, a, b);
    if w.fit.slope < 0.0 {
      RoundedReversals(w.fit, a, b);
    }
  }

  /** On clock series that never run backwards, with sorted odometry, every
      resolved window is in order in both domains, on every arm. */
  lemma ResolvedWindowIsOrdered(metric: Metric, sim: seq<int>, wall: seq<int>, arm: Arm, w: Bounds)
    requires SortedOdometry(arm) && Nondecreasing(sim) && Nondecreasing(wall)
    requires ResolveWindow(metric, sim, wall, arm) == Ok(w)
    ensures w.simLo <= w.simHi && w.wallLo <= w.wallHi
  {
    hide FitSimWallAffine, SimToWall, WallToSim, Round, ResolveWindow, ForwardClock;
    WindowIsResolved(metric, sim, wall, arm, w);
    SlopeSign(sim, wall, w.fit);
    SlopeSignIsCovariance(sim, wall, w.fit);
    WindowOrderedIff(metric, sim, wall, arm, w);
  }

  const BACK: int := 30_000_000_000

  /** A clock recorded backward for 30 s, and its window, upside down. */
  lemma BackwardClockInverts(metric: Metric)
    ensures var r := ResolveWindow(metric, [0, BACK], [BACK, 0], Other);
            r.Ok? && r.value.simLo == 10_000_000_000 && r.value.simHi == 0
  {
    BackwardFit();
  }

  lemma BackwardFit()
    ensures FitSimWallAffine([0, BACK], [BACK, 0]).Fitted?
    ensures var fit := FitSimWallAffine([0, BACK], [BACK, 0]).fit; fit.slope == -1.0 && fit.intercept == BACK as real
  {
    var t := BACK as real;
    var x, y := Shifted([0, BACK]), Shifted([BACK, 0]);
    assert x == [0.0, t] && y == [0.0, -t];
    assert Sum(x, 2) == Sum(x, 1) + t && Sum(x, 1) == Sum(x, 0) + 0.0;
    assert Sum(y, 2) == Sum(y, 1) - t && Sum(y, 1) == Sum(y, 0) + 0.0;
    var cx, cy := Centred(x), Centred(y);
    assert cx == [-t / 2.0, t / 2.0] && cy == [t / 2.0, -t / 2.0];
    var q := t / 2.0 * (t / 2.0);
    assert Dot(cx, cx, 2) == Dot(cx, cx, 1) + q && Dot(cx, cx, 1) == q;
    assert Dot(cx, cy, 2) == Dot(cx, cy, 1) - q && Dot(cx, cy, 1) == -q;
  }
}
