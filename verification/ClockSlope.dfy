/** The sign of the fitted clock slope: Chebyshev's sum inequality, by a pivot
    sample that splits the centred times by sign. */
module ClockSlope {
  import opened ClockFit

  ghost predicate Nondecreasing(v: seq<int>) {
    forall i, j :: 0 <= i <= j < |v| ==> v[i] <= v[j]
  }

  ghost predicate Ordered(v: seq<real>) {
    forall i, j :: 0 <= i <= j < |v| ==> v[i] <= v[j]
  }

  predicate SameSign(p: real, q: real) {
    (p >= 0.0 && q >= 0.0) || (p <= 0.0 && q <= 0.0)
  }

  lemma SameSignProduct(p: real, q: real)
    requires SameSign(p, q)
    ensures p * q >= 0.0
    ensures p != 0.0 && q != 0.0 ==> p * q > 0.0
  {
    if p > 0.0 && q > 0.0 {
      ProductSign(p, q, p * q);
    } else if p < 0.0 && q < 0.0 {
      ProductSign(-p, -q, p * q);
    } else if p == 0.0 {
      assert p * q == 0.0 * q;
    } else {
      assert p * q == p * 0.0;
    }
  }

  lemma {:induction false} DotOfSameSigns(a: seq<real>, b: seq<real>, n: nat, j: nat)
    requires n <= |a| == |b| && forall i :: 0 <= i < n ==> SameSign(a[i], b[i])
    ensures Dot(a, b, n) >= 0.0
    ensures j < n && a[j] != 0.0 && b[j] != 0.0 ==> Dot(a, b, n) > 0.0
  {
    if n > 0 {
      DotOfSameSigns(a, b, n - 1, j);
      SameSignProduct(a[n - 1], b[n - 1]);
    }
  }

  lemma {:induction false} SumSign(v: seq<real>, n: nat, j: nat)
    requires n <= |v| && forall i :: 0 <= i < n ==> v[i] >= 0.0
    ensures Sum(v, n) >= 0.0
    ensures j < n && v[j] > 0.0 ==> Sum(v, n) > 0.0
  {
    if n > 0 { SumSign(v, n - 1, j); }
  }

  lemma {:induction false} SumOfNegation(v: seq<real>, w: seq<real>, n: nat)
    requires n <= |v| == |w| && forall i :: 0 <= i < n ==> w[i] == -v[i]
    ensures Sum(w, n) == -Sum(v, n)
  {
    if n > 0 { SumOfNegation(v, w, n - 1); }
  }

  /** Ordered values that sum to zero and differ straddle zero strictly. */
  lemma StraddlesZero(v: seq<real>)
    requires |v| > 0 && Ordered(v) && Sum(v, |v|) == 0.0 && v[0] < v[|v| - 1]
    ensures v[0] < 0.0 < v[|v| - 1]
  {
    var n := |v|;
    if v[0] >= 0.0 {
      SumSign(v, n, n - 1);
    }
    if v[n - 1] <= 0.0 {
      var w := seq(n, i requires 0 <= i < n => -v[i]);
      SumOfNegation(v, w, n);
      SumSign(w, n, 0);
    }
  }

  lemma Pivot(v: seq<real>) returns (k: nat)
    requires |v| > 0 && v[0] <= 0.0
    ensures k < |v| && v[k] <= 0.0 && forall i :: k < i < |v| ==> v[i] > 0.0
  {
    k := |v| - 1;
    while v[k] > 0.0
      invariant k < |v| && forall i :: k < i < |v| ==> v[i] > 0.0
      decreases k
    {
      k := k - 1;
    }
  }

  /** Replacing a column by any other shift of it leaves its product sum with a
      centred column unchanged. */
  lemma CentredProductIgnoresShift(cx: seq<real>, u: seq<real>, w: seq<real>, b: real, n: nat)
    requires n == |cx| == |w| && Moved(u, w, b) && Sum(cx, n) == 0.0
    ensures Dot(cx, u, n) == Dot(cx, w, n)
  {
    MovedDot(cx, cx, 0.0, u, w, b, n);
    CopiesIsProduct(n, 0.0 * b);
  }

  lemma CentredSum(c: seq<real>, v: seq<real>, m: real)
    requires Moved(c, v, m) && Sum(v, |v|) == Copies(|v|, m)
    ensures Sum(c, |v|) == 0.0
  {
    MovedSum(c, v, m, |v|);
  }

  /** The pivot's own wall time as the shift: every product is nonnegative. */
  lemma PivotProduct(cx: seq<real>, y: seq<real>)
    requires |cx| == |y| > 0 && Ordered(cx) && Ordered(y) && cx[0] < 0.0 < cx[|cx| - 1]
    ensures exists w, b :: Moved(w, y, b) && Dot(cx, w, |cx|) >= 0.0 && (y[0] < y[|y| - 1] ==> Dot(cx, w, |cx|) > 0.0)
  {
    var n := |cx|;
    var k := Pivot(cx);
    var w := seq(n, i requires 0 <= i < n => y[i] - y[k]);
    forall i | 0 <= i < n ensures SameSign(cx[i], w[i]) {
      if i <= k { assert cx[i] <= cx[k] && y[i] <= y[k]; } else { assert y[k] <= y[i]; }
    }
    DotOfSameSigns(cx, w, n, 0);
    DotOfSameSigns(cx, w, n, n - 1);
    assert Moved(w, y, y[k]);
  }

  lemma CentredOrder(c: seq<real>, v: seq<int>, m: real)
    requires v != [] && Nondecreasing(v) && Moved(c, Shifted(v), m)
    ensures Ordered(c) && (v[0] < v[|v| - 1] <==> c[0] < c[|v| - 1])
  {
  }

  lemma SpreadNeedsVariation(cx: seq<real>, n: nat)
    requires n == |cx| > 0 && Ordered(cx) && Sum(cx, n) == 0.0 && Dot(cx, cx, n) > 0.0
    ensures cx[0] < cx[n - 1]
  {
    if cx[0] >= cx[n - 1] {
      forall i | 0 <= i < n ensures cx[i] == cx[0] {
        assert cx[0] <= cx[i] <= cx[n - 1];
      }
      ConstantZero(cx, n);
      ZeroDot(cx, n);
    }
  }

  lemma ConstantZero(v: seq<real>, n: nat)
    requires n == |v| > 0 && Sum(v, n) == 0.0 && forall i :: 0 <= i < n ==> v[i] == v[0]
    ensures forall i :: 0 <= i < n ==> v[i] == 0.0
  {
    if v[0] > 0.0 { SumSign(v, n, 0); }
    if v[0] < 0.0 {
      var w := seq(n, i requires 0 <= i < n => -v[i]);
      SumOfNegation(v, w, n);
      SumSign(w, n, 0);
    }
  }

  /** On clock series that never run backwards, the fitted slope is never
      negative, and it is positive iff the wall clock advanced at all. */
  lemma SlopeSign(sim: seq<int>, wall: seq<int>, fit: AffineFit)
    requires FitSimWallAffine(sim, wall) == Fitted(fit) && Nondecreasing(sim) && Nondecreasing(wall)
    ensures |sim| == |wall| >= 2 && fit.slope >= 0.0
    ensures fit.slope > 0.0 <==> wall[0] < wall[|wall| - 1]
  {
    var cx, cy, xm, ym := FitHasParts(sim, wall, fit);
    var n, sxx := |sim|, Dot(cx, cx, |sim|);
    CentredSum(cx, Shifted(sim), xm);
    CentredOrder(cx, sim, xm);
    CentredOrder(cy, wall, ym);
    SpreadNeedsVariation(cx, n);
    StraddlesZero(cx);
    PivotProduct(cx, cy);
    var w, b :| Moved(w, cy, b) && Dot(cx, w, n) >= 0.0 && (cy[0] < cy[n - 1] ==> Dot(cx, w, n) > 0.0);
    CentredProductIgnoresShift(cx, w, cy, b, n);
    if wall[0] >= wall[n - 1] {
      FlatWall(wall, cy, ym);
      ZeroProduct(cx, cy, n);
    }
    QuotientSign(fit.slope, sxx, Dot(cx, cy, n));
  }

  lemma FlatWall(wall: seq<int>, cy: seq<real>, ym: real)
    requires wall != [] && Nondecreasing(wall) && wall[0] >= wall[|wall| - 1]
    requires Moved(cy, Shifted(wall), ym) && Sum(Shifted(wall), |wall|) == Copies(|wall|, ym)
    ensures forall i :: 0 <= i < |cy| ==> cy[i] == 0.0
  {
    CentredSum(cy, Shifted(wall), ym);
    forall i | 0 <= i < |cy| ensures cy[i] == cy[0] {
      assert wall[0] <= wall[i] <= wall[|wall| - 1];
    }
    ConstantZero(cy, |cy|);
  }

  lemma {:induction false} ZeroProduct(a: seq<real>, b: seq<real>, n: nat)
    requires n <= |a| == |b| && forall i :: 0 <= i < n ==> b[i] == 0.0
    ensures Dot(a, b, n) == 0.0
  {
    if n > 0 {
      ZeroProduct(a, b, n - 1);
      assert a[n - 1] * b[n - 1] == a[n - 1] * 0.0;
    }
  }

  lemma QuotientSign(s: real, sxx: real, sxy: real)
    requires SlopeOf(s, sxx, sxy)
    ensures sxy > 0.0 ==> s > 0.0
    ensures sxy == 0.0 ==> s == 0.0
  {
    if s < 0.0 { ProductSign(-s, sxx, -(s * sxx)); }
    if s == 0.0 { assert s * sxx == 0.0 * sxx; }
    if s > 0.0 { ProductSign(s, sxx, s * sxx); }
  }
}
