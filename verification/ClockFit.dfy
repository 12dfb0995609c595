/** The least-squares line from simulation time to wall time, fitted on data
    shifted by the first sample and folded back to absolute time. */
module ClockFit {

  datatype AffineFit = AffineFit(slope: real, intercept: real, maxResidual: real, n: nat)

  /** What a fit attempt yields. A constant simulation clock divides zero by zero,
      which numpy answers with NaN instead of an exception. */
  datatype Outcome = Fitted(fit: AffineFit) | ValueError | NotANumber

  // ---- finite sums ----

  function Sum(v: seq<real>, n: nat): real
    requires n <= |v|
  {
    if n == 0 then 0.0 else Sum(v, n - 1) + v[n - 1]
  }

  function Dot(a: seq<real>, b: seq<real>, n: nat): real
    requires n <= |a| == |b|
  {
    if n == 0 then 0.0 else Dot(a, b, n - 1) + a[n - 1] * b[n - 1]
  }

  /** `v` moved by a constant. */
  predicate Moved(u: seq<real>, v: seq<real>, a: real) {
    |u| == |v| && forall i :: 0 <= i < |v| ==> u[i] == v[i] - a
  }

  /** n copies of `a`, as repeated addition. */
  function Copies(n: nat, a: real): real {
    if n == 0 then 0.0 else Copies(n - 1, a) + a
  }

  lemma {:induction false} CopiesIsProduct(n: nat, a: real)
    ensures Copies(n, a) == n as real * a
  {
    if n > 0 {
      CopiesIsProduct(n - 1, a);
      assert n as real * a == (n - 1) as real * a + a;
    }
  }

  lemma {:induction false} CopiesAdd(n: nat, a: real, b: real)
    ensures Copies(n, a + b) == Copies(n, a) + Copies(n, b)
  {
    if n > 0 { CopiesAdd(n - 1, a, b); }
  }

  lemma {:induction false} MovedSum(u: seq<real>, v: seq<real>, a: real, n: nat)
    requires Moved(u, v, a) && n <= |v|
    ensures Sum(u, n) == Sum(v, n) - Copies(n, a)
  {
    if n > 0 { MovedSum(u, v, a, n - 1); }
  }

  /** How a product sum changes when its columns move by a and b. */
  ghost predicate MovedProduct(r: real, xy: real, sx: real, sy: real, a: real, b: real, nab: real) {
    r == xy - a * sy - b * sx + nab
  }

  lemma {:induction false} MovedDot(u: seq<real>, x: seq<real>, a: real, v: seq<real>, y: seq<real>, b: real, n: nat)
    requires Moved(u, x, a) && Moved(v, y, b) && n <= |x| == |y|
    ensures MovedProduct(Dot(u, v, n), Dot(x, y, n), Sum(x, n), Sum(y, n), a, b, Copies(n, a * b))
  {
    if n > 0 {
      MovedDot(u, x, a, v, y, b, n - 1);
      MovedTerm(Dot(u, v, n - 1), Dot(x, y, n - 1), x[n - 1], y[n - 1], a, b, Sum(x, n - 1), Sum(y, n - 1), Copies(n - 1, a * b));
    }
  }

  lemma MovedTerm(r: real, xy: real, x: real, y: real, a: real, b: real, sx: real, sy: real, nab: real)
    requires MovedProduct(r, xy, sx, sy, a, b, nab)
    ensures MovedProduct(r + (x - a) * (y - b), xy + x * y, sx + x, sy + y, a, b, nab + a * b)
  {
  }

  function Square(v: real): real {
    v * v
  }

  lemma {:induction false} SquaresAtLeast(v: seq<real>, n: nat)
    requires n <= |v|
    ensures Dot(v, v, n) >= 0.0
    ensures Dot(v, v, n) == 0.0 ==> forall i :: 0 <= i < n ==> v[i] == 0.0
  {
    if n > 0 {
      SquaresAtLeast(v, n - 1);
      SquareSign(v[n - 1]);
      assert Dot(v, v, n) == Dot(v, v, n - 1) + Square(v[n - 1]);
    }
  }

  lemma SquareSign(k: real)
    ensures Square(k) >= 0.0
    ensures k != 0.0 ==> Square(k) > 0.0
  {
    if k > 0.0 {
      ProductSign(k, k, Square(k));
    } else if k < 0.0 {
      ProductSign(-k, -k, Square(k));
    }
  }

  lemma ProductSign(a: real, b: real, c: real)
    requires a > 0.0 && b > 0.0 && c == a * b
    ensures c > 0.0
  {
  }

  // ---- the fit ----

  function Shifted(v: seq<int>): (r: seq<real>)
    requires v != []
    ensures |r| == |v| && forall i :: 0 <= i < |r| ==> r[i] == v[i] as real - v[0] as real
  {
    seq(|v|, i requires 0 <= i < |v| => (v[i] - v[0]) as real)
  }

  function Mean(v: seq<real>): real
    requires v != []
  {
    Sum(v, |v|) / |v| as real
  }

  function Centred(v: seq<real>): (r: seq<real>)
    requires v != []
    ensures Moved(r, v, Mean(v))
  {
    seq(|v|, i requires 0 <= i < |v| => v[i] - Mean(v))
  }

  function Abs(v: real): real {
    if v < 0.0 then -v else v
  }

  function MaxAbs(v: seq<real>): (m: real)
    requires v != []
    ensures (forall i :: 0 <= i < |v| ==> Abs(v[i]) <= m) && exists i :: 0 <= i < |v| && Abs(v[i]) == m
  {
    var last := Abs(v[|v| - 1]);
    if |v| == 1 then last
    else
      var rest := MaxAbs(v[..|v| - 1]);
      assert forall i :: 0 <= i < |v| - 1 ==> v[..|v| - 1][i] == v[i];
      if last > rest then last else rest
  }

  function Residuals(slope: real, b: real, x: seq<real>, y: seq<real>): (r: seq<real>)
    requires |x| == |y|
    ensures |r| == |x|
  {
    seq(|x|, i requires 0 <= i < |x| => y[i] - (slope * x[i] + b))
  }

  function SlopeFrom(sxx: real, sxy: real): real
    requires sxx != 0.0
  {
    sxy / sxx
  }

  /** The intercept of the shifted data. */
  function ShiftedIntercept(s: real, xm: real, ym: real): real {
    ym - s * xm
  }

  /** That intercept with the shift by the first sample folded back in. */
  function FoldBack(s: real, xm: real, ym: real, x0: real, y0: real): real {
    ShiftedIntercept(s, xm, ym) + y0 - s * x0
  }

  function FitSimWallAffine(sim: seq<int>, wall: seq<int>): Outcome {
    if |sim| != |wall| || |sim| < 2 then ValueError
    else
      var x, y := Shifted(sim), Shifted(wall);
      var cx, cy := Centred(x), Centred(y);
      if Dot(cx, cx, |sim|) == 0.0 then NotANumber
      else
        var slope := SlopeFrom(Dot(cx, cx, |sim|), Dot(cx, cy, |sim|));
        Fitted(AffineFit(slope, FoldBack(slope, Mean(x), Mean(y), sim[0] as real, wall[0] as real),
                         MaxAbs(Residuals(slope, ShiftedIntercept(slope, Mean(x), Mean(y)), x, y)), |sim|))
  }

  function SimToWall(fit: AffineFit, sim: real): real {
    fit.slope * sim + fit.intercept
  }

  function WallToSim(fit: AffineFit, wall: real): real
    requires fit.slope != 0.0
  {
    (wall - fit.intercept) / fit.slope
  }

  /** The two conversions are mutually inverse. */
  lemma ConversionsInvert(fit: AffineFit, t: real)
    requires fit.slope != 0.0
    ensures SimToWall(fit, WallToSim(fit, t)) == t && WallToSim(fit, SimToWall(fit, t)) == t
  {
    assert fit.slope * ((t - fit.intercept) / fit.slope) == t - fit.intercept;
    assert (fit.slope * t) / fit.slope == t;
  }

  // ---- what the fit means on the original samples ----

  function Reals(v: seq<int>): (r: seq<real>)
    ensures |r| == |v| && forall i :: 0 <= i < |r| ==> r[i] == v[i] as real
  {
    seq(|v|, i requires 0 <= i < |v| => v[i] as real)
  }

  /** Sum of squared errors of an arbitrary line, over the first n samples. */
  function SquaredError(slope: real, intercept: real, x: seq<real>, y: seq<real>, n: nat): real
    requires n <= |x| == |y|
  {
    if n == 0 then 0.0
    else SquaredError(slope, intercept, x, y, n - 1) + Square(y[n - 1] - (slope * x[n - 1] + intercept))
  }

  /** The five sums that determine every squared error. */
  datatype Moments = Moments(n: real, x: real, y: real, xx: real, xy: real, yy: real)

  function MomentsOf(x: seq<real>, y: seq<real>, n: nat): Moments
    requires n <= |x| == |y|
  {
    Moments(n as real, Sum(x, n), Sum(y, n), Dot(x, x, n), Dot(x, y, n), Dot(y, y, n))
  }

  function Cost(m: Moments, s: real, c: real): real {
    m.yy - 2.0 * (s * m.xy) - 2.0 * (c * m.y) + s * s * m.xx + 2.0 * (s * c * m.x) + m.n * (c * c)
  }

  lemma {:induction false} SquaredErrorIsCost(s: real, c: real, x: seq<real>, y: seq<real>, n: nat)
    requires n <= |x| == |y|
    ensures SquaredError(s, c, x, y, n) == Cost(MomentsOf(x, y, n), s, c)
  {
    hide Cost, Extended, Dot, Sum, Square, MomentsOf;
    if n == 0 {
      CostOfNothing(s, c);
      NoMoments(x, y);
    } else {
      SquaredErrorIsCost(s, c, x, y, n - 1);
      CostStep(MomentsOf(x, y, n - 1), s, c, x[n - 1], y[n - 1]);
      MomentsStep(x, y, n);
    }
  }

  lemma NoMoments(x: seq<real>, y: seq<real>)
    requires |x| == |y|
    ensures MomentsOf(x, y, 0) == Moments(0.0, 0.0, 0.0, 0.0, 0.0, 0.0)
  {
  }

  lemma CostOfNothing(s: real, c: real)
    ensures Cost(Moments(0.0, 0.0, 0.0, 0.0, 0.0, 0.0), s, c) == 0.0
  {
  }

  lemma MomentsStep(x: seq<real>, y: seq<real>, n: nat)
    requires 0 < n <= |x| == |y|
    ensures MomentsOf(x, y, n) == Extended(MomentsOf(x, y, n - 1), x[n - 1], y[n - 1])
  {
  }

  function Extended(m: Moments, x: real, y: real): Moments {
    Moments(m.n + 1.0, m.x + x, m.y + y, m.xx + x * x, m.xy + x * y, m.yy + y * y)
  }

  lemma CostStep(m: Moments, s: real, c: real, x: real, y: real)
    ensures Cost(m, s, c) + Square(y - (s * x + c))
         == Cost(Extended(m, x, y), s, c)
  {
    assert Square(y - (s * x + c))
        == y * y - 2.0 * (s * (x * y)) - 2.0 * (c * y) + s * s * (x * x) + 2.0 * (s * c * x) + c * c;
  }

  /** The normal equations of least squares. */
  ghost predicate Normal(m: Moments, s: real, c: real) {
    m.xy == s * m.xx + c * m.x && m.y == s * m.x + m.n * c
  }

  lemma ExcessCost(m: Moments, s: real, c: real, s': real, c': real)
    requires Normal(m, s, c)
    ensures Cost(m, s', c') - Cost(m, s, c)
         == (s' - s) * (s' - s) * m.xx + 2.0 * ((s' - s) * (c' - c) * m.x) + m.n * ((c' - c) * (c' - c))
  {
    var d, e := s' - s, c' - c;
    assert Cost(m, s + d, c + e) == Cost(m, s, c) - 2.0 * (d * m.xy) - 2.0 * (e * m.y) + 2.0 * (s * d * m.xx) + d * d * m.xx
        + 2.0 * (s * e * m.x) + 2.0 * (d * c * m.x) + 2.0 * (d * e * m.x) + 2.0 * (m.n * (c * e)) + m.n * (e * e);
    assert d * m.xy == d * (s * m.xx) + d * (c * m.x);
    assert e * m.y == e * (s * m.x) + e * (m.n * c);
  }

  lemma ExcessIsPositive(n: real, x: real, xx: real, d: real, e: real)
    requires n > 0.0 && n * xx - x * x > 0.0
    ensures d == 0.0 && e == 0.0 ==> d * d * xx + 2.0 * (d * e * x) + n * (e * e) == 0.0
    ensures d != 0.0 || e != 0.0 ==> d * d * xx + 2.0 * (d * e * x) + n * (e * e) > 0.0
  {
    var q := d * d * xx + 2.0 * (d * e * x) + n * (e * e);
    var t, g := n * e + d * x, n * xx - x * x;
    assert n * q == Square(t) + Square(d) * g;
    SquareSign(t);
    SquareSign(d);
    if d != 0.0 {
      ProductSign(Square(d), g, Square(d) * g);
      SignOfFactor(n, q);
    } else if e != 0.0 {
      SquareSign(e);
      ProductSign(n, Square(e), n * Square(e));
      assert q == n * Square(e);
    }
  }

  lemma SignOfFactor(n: real, q: real)
    requires n > 0.0 && n * q > 0.0
    ensures q > 0.0
  {
  }

  // ---- optimality ----

  ghost predicate SlopeOf(s: real, sxx: real, sxy: real) {
    sxx > 0.0 && s * sxx == sxy
  }

  /** What a successful fit is built from: samples centred on their means. */
  ghost predicate FitParts(sim: seq<int>, wall: seq<int>, fit: AffineFit, cx: seq<real>, cy: seq<real>, xm: real, ym: real) {
    && |sim| == |wall| >= 2
    && Moved(cx, Shifted(sim), xm) && Moved(cy, Shifted(wall), ym)
    && Sum(Shifted(sim), |sim|) == Copies(|sim|, xm) && Sum(Shifted(wall), |sim|) == Copies(|sim|, ym)
    && SlopeOf(fit.slope, Dot(cx, cx, |sim|), Dot(cx, cy, |sim|))
    && fit.intercept == FoldBack(fit.slope, xm, ym, sim[0] as real, wall[0] as real)
  }

  lemma QuotientIsSlope(sxx: real, sxy: real)
    requires sxx > 0.0
    ensures SlopeOf(SlopeFrom(sxx, sxy), sxx, sxy)
  {
    Quotient(sxy, sxx);
  }

  lemma MeanCopies(v: seq<real>)
    requires v != []
    ensures Copies(|v|, Mean(v)) == Sum(v, |v|)
  {
    CopiesIsProduct(|v|, Mean(v));
    Quotient(Sum(v, |v|), |v| as real);
  }

  lemma Quotient(a: real, b: real)
    requires b != 0.0
    ensures (a / b) * b == a && b * (a / b) == a
  {
  }

  lemma FitHasParts(sim: seq<int>, wall: seq<int>, fit: AffineFit)
      returns (cx: seq<real>, cy: seq<real>, xm: real, ym: real)
    requires FitSimWallAffine(sim, wall) == Fitted(fit)
    ensures FitParts(sim, wall, fit, cx, cy, xm, ym) && fit.n == |sim|
    ensures fit.maxResidual == MaxAbs(Residuals(fit.slope, ShiftedIntercept(fit.slope, xm, ym), Shifted(sim), Shifted(wall)))
  {
    var x, y := Shifted(sim), Shifted(wall);
    cx, cy := Centred(x), Centred(y);
    xm, ym := Mean(x), Mean(y);
    MeanCopies(x);
    MeanCopies(y);
    SquaresAtLeast(cx, |sim|);
    QuotientIsSlope(Dot(cx, cx, |sim|), Dot(cx, cy, |sim|));
  }

  lemma MovedTwice(u: seq<real>, v: seq<real>, a: real, w: seq<real>, b: real)
    requires Moved(u, v, a) && Moved(v, w, b)
    ensures Moved(u, w, b + a)
  {
  }

  lemma ShiftMoves(v: seq<int>)
    requires v != []
    ensures Moved(Shifted(v), Reals(v), v[0] as real)
  {
  }

  /** Where the centre of the samples lies in absolute time. */
  lemma AbsoluteCentre(v: seq<int>, c: seq<real>, m: real)
    requires v != [] && Moved(c, Shifted(v), m) && Sum(Shifted(v), |v|) == Copies(|v|, m)
    ensures Moved(c, Reals(v), v[0] as real + m)
    ensures Sum(Reals(v), |v|) == Copies(|v|, v[0] as real + m)
  {
    var a := v[0] as real;
    ShiftMoves(v);
    MovedTwice(c, Shifted(v), m, Reals(v), a);
    MovedSum(Shifted(v), Reals(v), a, |v|);
    CopiesAdd(|v|, a, m);
  }

  /** Folding the shift back into the intercept solves the normal equations of the
      absolute samples, although only shifted data was ever summed. */
  lemma FitIsNormal(sim: seq<int>, wall: seq<int>, fit: AffineFit, cx: seq<real>, cy: seq<real>, xm: real, ym: real)
    requires FitParts(sim, wall, fit, cx, cy, xm, ym)
    ensures Determined(MomentsOf(Reals(sim), Reals(wall), |sim|), fit.slope, fit.intercept)
  {
    var n, x, y := |sim|, Reals(sim), Reals(wall);
    var a, b := sim[0] as real + xm, wall[0] as real + ym;
    AbsoluteCentre(sim, cx, xm);
    AbsoluteCentre(wall, cy, ym);
    MovedDot(cx, x, a, cx, x, a, n);
    MovedDot(cx, x, a, cy, y, b, n);
    FoldedIntercept(fit.slope, xm, ym, sim[0] as real, wall[0] as real);
    CentredMoments(MomentsOf(x, y, n), n, a, b, fit.slope, fit.intercept, Dot(cx, cx, n), Dot(cx, cy, n));
  }

  lemma CentredMoments(m: Moments, n: nat, a: real, b: real, s: real, c: real, sxx: real, sxy: real)
    requires m.n == n as real > 0.0 && SlopeOf(s, sxx, sxy) && c == FoldBack(s, a, b, 0.0, 0.0)
    requires m.x == Copies(n, a) && m.y == Copies(n, b)
    requires MovedProduct(sxx, m.xx, m.x, m.x, a, a, Copies(n, a * a))
    requires MovedProduct(sxy, m.xy, m.x, m.y, a, b, Copies(n, a * b))
    ensures Determined(m, s, c)
  {
    CopiesIsProduct(n, a);
    CopiesIsProduct(n, b);
    CopiesIsProduct(n, a * a);
    CopiesIsProduct(n, a * b);
    CentredToNormal(m, a, b, s, c, sxx, sxy);
  }

  /** The normal equations hold and have no other solution. */
  ghost predicate Determined(m: Moments, s: real, c: real) {
    Normal(m, s, c) && m.n > 0.0 && m.n * m.xx - m.x * m.x > 0.0
  }

  lemma FoldedIntercept(s: real, xm: real, ym: real, x0: real, y0: real)
    ensures FoldBack(s, xm, ym, x0, y0) == FoldBack(s, x0 + xm, y0 + ym, 0.0, 0.0)
  {
  }

  lemma CentredToNormal(m: Moments, a: real, b: real, s: real, c: real, sxx: real, sxy: real)
    requires m.n > 0.0 && sxx > 0.0 && s * sxx == sxy && c == b - s * a
    requires m.x == m.n * a && m.y == m.n * b
    requires sxx == m.xx - a * m.x - a * m.x + m.n * (a * a)
    requires sxy == m.xy - a * m.y - b * m.x + m.n * (a * b)
    ensures Determined(m, s, c)
  {
    var n := m.n;
    assert a * m.x == n * (a * a) && a * m.y == n * (a * b) && b * m.x == n * (a * b);
    assert sxx == m.xx - n * (a * a) && sxy == m.xy - n * (a * b);
    assert s * sxx == s * m.xx - s * (n * (a * a));
    assert c * m.x == n * (a * b) - s * (n * (a * a));
    assert s * m.x + n * c == n * b;
    ProductSign(n, sxx, n * sxx);
    assert n * sxx == n * m.xx - m.x * m.x;
  }

  /** Least squares on the original samples: no other line is as good. */
  lemma FitIsLeastSquares(sim: seq<int>, wall: seq<int>, fit: AffineFit, slope: real, intercept: real)
    requires FitSimWallAffine(sim, wall) == Fitted(fit)
    ensures |sim| == |wall|
    ensures var best := SquaredError(fit.slope, fit.intercept, Reals(sim), Reals(wall), |sim|);
            var other := SquaredError(slope, intercept, Reals(sim), Reals(wall), |sim|);
            best <= other && (best == other <==> slope == fit.slope && intercept == fit.intercept)
  {
    var cx, cy, xm, ym := FitHasParts(sim, wall, fit);
    FitIsNormal(sim, wall, fit, cx, cy, xm, ym);
    DeterminedIsLeast(Reals(sim), Reals(wall), |sim|, fit.slope, fit.intercept, slope, intercept);
  }

  lemma DeterminedIsLeast(x: seq<real>, y: seq<real>, n: nat, s: real, c: real, s': real, c': real)
    requires n <= |x| == |y| && Determined(MomentsOf(x, y, n), s, c)
    ensures SquaredError(s, c, x, y, n) <= SquaredError(s', c', x, y, n)
    ensures SquaredError(s, c, x, y, n) == SquaredError(s', c', x, y, n) <==> s' == s && c' == c
  {
    SquaredErrorIsCost(s, c, x, y, n);
    SquaredErrorIsCost(s', c', x, y, n);
    NormalIsLeast(MomentsOf(x, y, n), s, c, s', c');
  }

  lemma NormalIsLeast(m: Moments, s: real, c: real, s': real, c': real)
    requires Determined(m, s, c)
    ensures Cost(m, s, c) <= Cost(m, s', c')
    ensures Cost(m, s, c) == Cost(m, s', c') <==> s' == s && c' == c
  {
    ExcessCost(m, s, c, s', c');
    ExcessIsPositive(m.n, m.x, m.xx, s' - s, c' - c);
  }

  /** The sign of the slope, read off the samples: n times the sum of products
      against the product of the sums. */
  lemma SlopeSignIsCovariance(sim: seq<int>, wall: seq<int>, fit: AffineFit)
    requires FitSimWallAffine(sim, wall) == Fitted(fit)
    ensures |sim| == |wall|
    ensures fit.slope >= 0.0 <==> ForwardClock(sim, wall)
  {
    hide FitSimWallAffine, SlopeOf, FoldBack, Copies, Moved, Determined, Sum, Dot;
    var cx, cy, xm, ym := FitHasParts(sim, wall, fit);
    FitIsNormal(sim, wall, fit, cx, cy, xm, ym);
    CovarianceSign(MomentsOf(Reals(sim), Reals(wall), |sim|), fit.slope, fit.intercept);
  }

  /** The two series do not fall against each other: their covariance is not negative. */
  predicate ForwardClock(sim: seq<int>, wall: seq<int>)
    requires |sim| == |wall|
  {
    var m := MomentsOf(Reals(sim), Reals(wall), |sim|);
    m.n * m.xy >= m.x * m.y
  }

  lemma CovarianceSign(m: Moments, s: real, c: real)
    requires Determined(m, s, c)
    ensures s >= 0.0 <==> m.n * m.xy >= m.x * m.y
  {
    var g := m.n * m.xx - m.x * m.x;
    assert m.n * m.xy == m.n * (s * m.xx) + m.n * (c * m.x);
    assert m.x * m.y == m.x * (s * m.x) + m.x * (m.n * c);
    assert m.n * m.xy - m.x * m.y == s * g;
    if s > 0.0 { ProductSign(s, g, s * g); }
    if s < 0.0 { ProductSign(-s, g, -s * g); }
  }

  /** The reported residual bounds the error at every sample, and is attained:
      sim_to_wall reproduces the shifted fit. */
  lemma ResidualBoundsEverySample(sim: seq<int>, wall: seq<int>, fit: AffineFit)
    requires FitSimWallAffine(sim, wall) == Fitted(fit)
    ensures |sim| == |wall| == fit.n
    ensures forall i :: 0 <= i < |sim| ==> ErrorAt(sim, wall, fit, i) <= fit.maxResidual
    ensures exists i :: 0 <= i < |sim| && ErrorAt(sim, wall, fit, i) == fit.maxResidual
  {
    var cx, cy, xm, ym := FitHasParts(sim, wall, fit);
    var r := Residuals(fit.slope, ShiftedIntercept(fit.slope, xm, ym), Shifted(sim), Shifted(wall));
    ResidualsAreErrors(sim, wall, fit, xm, ym, r);
    var i :| 0 <= i < |r| && Abs(r[i]) == MaxAbs(r);
    assert ErrorAt(sim, wall, fit, i) == Abs(r[i]);
  }

  lemma ResidualsAreErrors(sim: seq<int>, wall: seq<int>, fit: AffineFit, xm: real, ym: real, r: seq<real>)
    requires |sim| == |wall| > 0 && r == Residuals(fit.slope, ShiftedIntercept(fit.slope, xm, ym), Shifted(sim), Shifted(wall))
    requires fit.intercept == FoldBack(fit.slope, xm, ym, sim[0] as real, wall[0] as real)
    ensures forall i :: 0 <= i < |sim| ==> Abs(r[i]) == ErrorAt(sim, wall, fit, i)
  {
    forall i | 0 <= i < |sim| ensures Abs(r[i]) == ErrorAt(sim, wall, fit, i) {
      ShiftedError(Shifted(wall)[i], Shifted(sim)[i], ym, xm, wall[0] as real, sim[0] as real, fit.slope);
    }
  }

  /** How far the line misses sample i, on either side. */
  function ErrorAt(sim: seq<int>, wall: seq<int>, fit: AffineFit, i: nat): (e: real)
    requires i < |sim| == |wall|
    ensures var miss := wall[i] as real - (fit.slope * sim[i] as real + fit.intercept);
            e >= 0.0 && (e == miss || e == -miss)
  {
    Abs(wall[i] as real - SimToWall(fit, sim[i] as real))
  }

  lemma ShiftedError(y: real, x: real, ym: real, xm: real, y0: real, x0: real, s: real)
    ensures y - (s * x + (ym - s * xm)) == (y + y0) - (s * (x + x0) + (ym - s * xm + y0 - s * x0))
  {
  }

  /** A fit exists for every pair of equally long series of two or more samples
      whose simulation clock is not constant, and for no other input. */
  lemma FitExistsIff(sim: seq<int>, wall: seq<int>)
    ensures FitSimWallAffine(sim, wall).Fitted? <==>
              |sim| == |wall| >= 2 && exists i :: 0 <= i < |sim| && sim[i] != sim[0]
    ensures FitSimWallAffine(sim, wall) == ValueError <==> |sim| != |wall| || |sim| < 2
  {
    if |sim| == |wall| >= 2 {
      var n, x := |sim|, Shifted(sim);
      var cx := Centred(x);
      SquaresAtLeast(cx, n);
      MeanCopies(x);
      if Dot(cx, cx, n) == 0.0 {
        assert forall i :: 0 <= i < n ==> cx[i] == 0.0 && x[i] == x[0] + 0.0 * cx[i];
      } else if forall i :: 0 <= i < n ==> sim[i] == sim[0] {
        ConstantMean(x, n);
        CopiesIsProduct(n, Mean(x));
        ZeroDot(cx, n);
      }
    }
  }

  lemma {:induction false} ConstantMean(x: seq<real>, n: nat)
    requires n <= |x| && forall i :: 0 <= i < |x| ==> x[i] == 0.0
    ensures Sum(x, n) == 0.0
  {
    if n > 0 { ConstantMean(x, n - 1); }
  }

  lemma {:induction false} ZeroDot(v: seq<real>, n: nat)
    requires n <= |v| && forall i :: 0 <= i < |v| ==> v[i] == 0.0
    ensures Dot(v, v, n) == 0.0
  {
    if n > 0 { ZeroDot(v, n - 1); }
  }
}
