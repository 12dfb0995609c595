/** Sensor-kit frame math: rotation composition and the extraction of roll, pitch
    and yaw, with angles as (cosine, sine) pairs. */
module Kit {
  import opened Prelude
  import opened Plane

  datatype Vec = Vec(x: real, y: real, z: real)
  datatype Mat = Mat(r0: Vec, r1: Vec, r2: Vec)
  datatype Angle = Angle(c: real, s: real)

  function Dot3(a0: real, a1: real, a2: real, b0: real, b1: real, b2: real): real {
    a0 * b0 + a1 * b1 + a2 * b2
  }

  function Minor(p: real, q: real, r: real, s: real): real {
    p * s - q * r
  }

  function Dot(a: Vec, b: Vec): real {
    Dot3(a.x, a.y, a.z, b.x, b.y, b.z)
  }

  function Cross(a: Vec, b: Vec): Vec {
    Vec(Minor(a.y, a.z, b.y, b.z), Minor(a.z, a.x, b.z, b.x), Minor(a.x, a.y, b.x, b.y))
  }

  /** The row vector a times the matrix b. */
  function RowTimes(a: Vec, b: Mat): Vec {
    Vec(Dot3(a.x, a.y, a.z, b.r0.x, b.r1.x, b.r2.x),
        Dot3(a.x, a.y, a.z, b.r0.y, b.r1.y, b.r2.y),
        Dot3(a.x, a.y, a.z, b.r0.z, b.r1.z, b.r2.z))
  }

  function MatMul(a: Mat, b: Mat): Mat {
    Mat(RowTimes(a.r0, b), RowTimes(a.r1, b), RowTimes(a.r2, b))
  }

  function Apply(m: Mat, v: Vec): Vec {
    Vec(Dot(m.r0, v), Dot(m.r1, v), Dot(m.r2, v))
  }

  // ---- proper rotations ----

  /** Right-handed orthonormal rows: unit, and each the cross product of the
      other two (the cofactor identities of determinant one). */
  ghost predicate Proper(m: Mat) {
    && Dot(m.r0, m.r0) == 1.0 && Dot(m.r1, m.r1) == 1.0 && Dot(m.r2, m.r2) == 1.0
    && m.r0 == Cross(m.r1, m.r2) && m.r1 == Cross(m.r2, m.r0) && m.r2 == Cross(m.r0, m.r1)
  }

  function Cofactors(m: Mat): Mat {
    Mat(Cross(m.r1, m.r2), Cross(m.r2, m.r0), Cross(m.r0, m.r1))
  }

  /** The Cauchy-Binet identity: (a.u)(c.w) - (a.w)(c.u) = (a x c).(u x w). */
  lemma CauchyBinet(a0: real, a1: real, a2: real, c0: real, c1: real, c2: real,
                    u0: real, u1: real, u2: real, w0: real, w1: real, w2: real)
    ensures Minor(Dot3(a0, a1, a2, u0, u1, u2), Dot3(a0, a1, a2, w0, w1, w2),
                  Dot3(c0, c1, c2, u0, u1, u2), Dot3(c0, c1, c2, w0, w1, w2))
         == Dot3(Minor(a1, a2, c1, c2), Minor(a2, a0, c2, c0), Minor(a0, a1, c0, c1),
                 Minor(u1, w1, u2, w2), Minor(u2, w2, u0, w0), Minor(u0, w0, u1, w1))
  {
    assert (a0 * u0 + a1 * u1 + a2 * u2) * (c0 * w0 + c1 * w1 + c2 * w2)
         - (a0 * w0 + a1 * w1 + a2 * w2) * (c0 * u0 + c1 * u1 + c2 * u2)
        == (a1 * c2 - a2 * c1) * (u1 * w2 - w1 * u2)
         + (a2 * c0 - a0 * c2) * (u2 * w0 - w2 * u0)
         + (a0 * c1 - a1 * c0) * (u0 * w1 - w0 * u1);
  }

  /** The cross product of two transformed rows is the transformed cross product,
      under the matrix of cofactors. */
  lemma CrossOfProducts(a: Vec, c: Vec, b: Mat)
    ensures Cross(RowTimes(a, b), RowTimes(c, b)) == RowTimes(Cross(a, c), Cofactors(b))
  {
    hide Dot3, Minor;
    CauchyBinet(a.x, a.y, a.z, c.x, c.y, c.z, b.r0.y, b.r1.y, b.r2.y, b.r0.z, b.r1.z, b.r2.z);
    CauchyBinet(a.x, a.y, a.z, c.x, c.y, c.z, b.r0.z, b.r1.z, b.r2.z, b.r0.x, b.r1.x, b.r2.x);
    CauchyBinet(a.x, a.y, a.z, c.x, c.y, c.z, b.r0.x, b.r1.x, b.r2.x, b.r0.y, b.r1.y, b.r2.y);
  }

  lemma CrossOfRows(a: Vec, c: Vec, b: Mat)
    requires Proper(b)
    ensures Cross(RowTimes(a, b), RowTimes(c, b)) == RowTimes(Cross(a, c), b)
  {
    hide RowTimes, Dot, Cross;
    CrossOfProducts(a, c, b);
    assert Cofactors(b) == b;
  }

  lemma CrossIsOrthogonal(a: Vec, b: Vec)
    ensures Dot(Cross(a, b), a) == 0.0 && Dot(Cross(a, b), b) == 0.0 && Dot(a, Cross(a, b)) == 0.0 && Dot(b, Cross(a, b)) == 0.0
  {
  }

  /** |aB|^2 written out by the scalar products of the rows of B. */
  lemma RowNormExpands(a: Vec, b: Mat)
    ensures Dot(RowTimes(a, b), RowTimes(a, b))
         == a.x * a.x * Dot(b.r0, b.r0) + a.y * a.y * Dot(b.r1, b.r1) + a.z * a.z * Dot(b.r2, b.r2)
          + 2.0 * (a.x * a.y * Dot(b.r0, b.r1)) + 2.0 * (a.y * a.z * Dot(b.r1, b.r2)) + 2.0 * (a.x * a.z * Dot(b.r0, b.r2))
  {
  }

  lemma RowsAreOrthogonal(b: Mat)
    requires Proper(b)
    ensures Dot(b.r0, b.r1) == 0.0 && Dot(b.r1, b.r2) == 0.0 && Dot(b.r0, b.r2) == 0.0
  {
    hide Cross, Dot;
    CrossIsOrthogonal(b.r1, b.r2);
    CrossIsOrthogonal(b.r2, b.r0);
  }

  lemma RowKeepsNorm(a: Vec, b: Mat)
    requires Proper(b) && Dot(a, a) == 1.0
    ensures Dot(RowTimes(a, b), RowTimes(a, b)) == 1.0
  {
    hide RowTimes, Cross;
    RowNormExpands(a, b);
    RowsAreOrthogonal(b);
    hide Dot;
    UnitForm(a);
  }

  lemma UnitForm(a: Vec)
    ensures Dot(a, a) == a.x * a.x + a.y * a.y + a.z * a.z
  {
  }

  /** Products of proper rotations are proper. */
  lemma ProductIsProper(a: Mat, b: Mat)
    requires Proper(a) && Proper(b)
    ensures Proper(MatMul(a, b))
  {
    hide RowTimes, Cross, Dot;
    RowKeepsNorm(a.r0, b);
    RowKeepsNorm(a.r1, b);
    RowKeepsNorm(a.r2, b);
    CrossOfRows(a.r1, a.r2, b);
    CrossOfRows(a.r2, a.r0, b);
    CrossOfRows(a.r0, a.r1, b);
  }

  // ---- building a rotation ----

  predicate OnCircle(a: Angle) {
    a.c * a.c + a.s * a.s == 1.0
  }

  /** R = Rz(yaw) Ry(pitch) Rx(roll), entry by entry as the code writes it. */
  function RotationMatrix(roll: Angle, pitch: Angle, yaw: Angle): Mat {
    Mat(Vec(yaw.c * pitch.c, yaw.c * pitch.s * roll.s - yaw.s * roll.c, yaw.c * pitch.s * roll.c + yaw.s * roll.s),
        Vec(yaw.s * pitch.c, yaw.s * pitch.s * roll.s + yaw.c * roll.c, yaw.s * pitch.s * roll.c - yaw.c * roll.s),
        Vec(-pitch.s, pitch.c * roll.s, pitch.c * roll.c))
  }

  function AboutX(a: Angle): Mat {
    Mat(Vec(1.0, 0.0, 0.0), Vec(0.0, a.c, -a.s), Vec(0.0, a.s, a.c))
  }

  function AboutY(a: Angle): Mat {
    Mat(Vec(a.c, 0.0, a.s), Vec(0.0, 1.0, 0.0), Vec(-a.s, 0.0, a.c))
  }

  function AboutZ(a: Angle): Mat {
    Mat(Vec(a.c, -a.s, 0.0), Vec(a.s, a.c, 0.0), Vec(0.0, 0.0, 1.0))
  }

  /** The written-out entries are the product of the three axis rotations. */
  lemma RotationIsProduct(roll: Angle, pitch: Angle, yaw: Angle)
    ensures RotationMatrix(roll, pitch, yaw) == MatMul(AboutZ(yaw), MatMul(AboutY(pitch), AboutX(roll)))
  {
  }

  /** The sense of the three axis rotations: a positive angle turns x to y about z, y to
      z about x, and z to x about y. */
  lemma AxesTurnRightHanded(a: Angle)
    ensures Apply(AboutZ(a), Vec(1.0, 0.0, 0.0)) == Vec(a.c, a.s, 0.0)
    ensures Apply(AboutX(a), Vec(0.0, 1.0, 0.0)) == Vec(0.0, a.c, a.s)
    ensures Apply(AboutY(a), Vec(0.0, 0.0, 1.0)) == Vec(a.s, 0.0, a.c)
  {
  }

  lemma AxesAreProper(a: Angle)
    requires OnCircle(a)
    ensures Proper(AboutX(a)) && Proper(AboutY(a)) && Proper(AboutZ(a))
  {
  }

  lemma RotationIsProper(roll: Angle, pitch: Angle, yaw: Angle)
    requires OnCircle(roll) && OnCircle(pitch) && OnCircle(yaw)
    ensures Proper(RotationMatrix(roll, pitch, yaw))
  {
    hide MatMul, Proper, AboutX, AboutY, AboutZ, RotationMatrix;
    AxesAreProper(roll);
    AxesAreProper(pitch);
    AxesAreProper(yaw);
    ProductIsProper(AboutY(pitch), AboutX(roll));
    ProductIsProper(AboutZ(yaw), MatMul(AboutY(pitch), AboutX(roll)));
    RotationIsProduct(roll, pitch, yaw);
  }

  // ---- extracting roll, pitch and yaw ----

  ghost predicate IsLength(h: real, x: real, y: real) {
    h >= 0.0 && h * h == x * x + y * y
  }

  /** What math.hypot returns over exact arithmetic. */
  ghost predicate IsHypot(hypot: (real, real) -> real) {
    forall x, y :: IsLength(hypot(x, y), x, y)
  }

  /** math.atan2, with its value 0 at the origin. */
  function Atan2(hypot: (real, real) -> real, y: real, x: real): Angle {
    var h := hypot(x, y);
    if h == 0.0 then Angle(1.0, 0.0) else Angle(x / h, y / h)
  }

  const SINGULAR := 0.000000001

  datatype Rpy = Rpy(roll: Angle, pitch: Angle, yaw: Angle)

  /** _rpy_from_matrix, with the gimbal branch pinning yaw to 0. */
  function Extract(hypot: (real, real) -> real, m: Mat): Rpy {
    var cosPitch := hypot(m.r0.x, m.r1.x);
    var pitch := Atan2(hypot, -m.r2.x, cosPitch);
    if cosPitch > SINGULAR then
      Rpy(Atan2(hypot, m.r2.y, m.r2.z), pitch, Atan2(hypot, m.r1.x, m.r0.x))
    else
      Rpy(Atan2(hypot, -m.r1.z, m.r1.y), pitch, Angle(1.0, 0.0))
  }

  function Rebuild(r: Rpy): Mat {
    RotationMatrix(r.roll, r.pitch, r.yaw)
  }

  /** The entries of a proper rotation, by cofactors: what Extract relies on. */
  ghost predicate Entries(a: real, b: real, c: real, d: real, e: real, f: real, g: real, p: real, q: real) {
    && a * a + b * b + c * c == 1.0 && d * d + e * e + f * f == 1.0 && g * g + p * p + q * q == 1.0
    && a == e * q - f * p && b == f * g - d * q && c == d * p - e * g
    && d == p * c - q * b && e == q * a - g * c && f == g * b - p * a
    && g == b * f - c * e && p == c * d - a * f && q == a * e - b * d
  }

  lemma ProperEntries(m: Mat)
    requires Proper(m)
    ensures Entries(m.r0.x, m.r0.y, m.r0.z, m.r1.x, m.r1.y, m.r1.z, m.r2.x, m.r2.y, m.r2.z)
  {
  }

  /** The first column is a unit vector too. */
  lemma FirstColumnIsUnit(a: real, b: real, c: real, d: real, e: real, f: real, g: real, p: real, q: real)
    requires Entries(a, b, c, d, e, f, g, p, q)
    ensures a * a + d * d + g * g == 1.0
  {
    assert a * a == a * (e * q - f * p);
    assert d * d == d * (p * c - q * b);
    assert g * g == g * (b * f - c * e);
    assert p * p == p * (c * d - a * f);
    assert q * q == q * (a * e - b * d);
  }

  /** (u/h) s (v/h) + (w/h)(t/h) is r when u s v + w t is r h^2. */
  lemma QuotientSum(u: real, s: real, v: real, w: real, t: real, h: real, r: real)
    requires h > 0.0 && r * (h * h) == u * s * v + w * t
    ensures (u / h) * s * (v / h) + (w / h) * (t / h) == r
  {
    var cu, cv, cw, ct := u / h, v / h, w / h, t / h;
    assert u == cu * h && v == cv * h && w == cw * h && t == ct * h;
    assert u * s * v == (cu * s * cv) * (h * h);
    assert w * t == (cw * ct) * (h * h);
    assert (r - (cu * s * cv + cw * ct)) * (h * h) == 0.0;
    CancelSquare(r - (cu * s * cv + cw * ct), h);
  }

  /** (u/h) s (v/h) - (w/h)(t/h) is r when u s v - w t is r h^2. */
  lemma QuotientDifference(u: real, s: real, v: real, w: real, t: real, h: real, r: real)
    requires h > 0.0 && r * (h * h) == u * s * v - w * t
    ensures (u / h) * s * (v / h) - (w / h) * (t / h) == r
  {
    var cu, cv, cw, ct := u / h, v / h, w / h, t / h;
    assert u == cu * h && v == cv * h && w == cw * h && t == ct * h;
    assert u * s * v == (cu * s * cv) * (h * h);
    assert w * t == (cw * ct) * (h * h);
    assert (r - (cu * s * cv - cw * ct)) * (h * h) == 0.0;
    CancelSquare(r - (cu * s * cv - cw * ct), h);
  }

  lemma CancelSquare(x: real, h: real)
    requires h > 0.0 && x * (h * h) == 0.0
    ensures x == 0.0
  {
    assert (x * h) * h == 0.0;
    assert x * h == 0.0;
  }

  /** The six numerators of the regular branch: each off-corner entry times
      cos^2 pitch, where cos^2 pitch = 1 - g^2. */
  lemma Numerators(a: real, b: real, c: real, d: real, e: real, f: real, g: real, p: real, q: real, hh: real)
    requires Entries(a, b, c, d, e, f, g, p, q) && hh == 1.0 - g * g
    ensures b * hh == a * -g * p - d * q
    ensures c * hh == a * -g * q + d * p
    ensures e * hh == d * -g * p + a * q
    ensures f * hh == d * -g * q - a * p
  {
    assert b * hh == b - b * g * g;
    assert c * hh == c - c * g * g;
    assert e * hh == e - e * g * g;
    assert f * hh == f - f * g * g;
    assert g * f == g * (g * b - p * a);
    assert g * e == g * (q * a - g * c);
    assert g * c == g * (d * p - e * g);
    assert g * b == g * (f * g - d * q);
  }

  lemma AngleOf(hypot: (real, real) -> real, y: real, x: real, h: real)
    requires IsHypot(hypot) && h > 0.0 && IsLength(h, x, y)
    ensures Atan2(hypot, y, x) == Angle(x / h, y / h)
  {
    assert IsLength(hypot(x, y), x, y);
    SqOrder(h, hypot(x, y));
  }

  lemma Atan2IsAngle(hypot: (real, real) -> real, y: real, x: real)
    requires IsHypot(hypot)
    ensures OnCircle(Atan2(hypot, y, x))
  {
    var h := hypot(x, y);
    assert IsLength(h, x, y);
    if h != 0.0 {
      ScaledSquares(x / h, y / h, h, x, y);
    } else {
    }
  }

  lemma ScaledSquares(c: real, s: real, h: real, x: real, y: real)
    requires h > 0.0 && x == c * h && y == s * h && h * h == x * x + y * y
    ensures c * c + s * s == 1.0
  {
    assert (c * c + s * s - 1.0) * (h * h) == 0.0;
    CancelSquare(c * c + s * s - 1.0, h);
  }

  /** Every extraction yields three angles, whatever the matrix. */
  lemma ExtractsAngles(hypot: (real, real) -> real, m: Mat)
    requires IsHypot(hypot)
    ensures var r := Extract(hypot, m); OnCircle(r.roll) && OnCircle(r.pitch) && OnCircle(r.yaw)
  {
    hide Atan2;
    forall x, y ensures OnCircle(Atan2(hypot, y, x)) {
      Atan2IsAngle(hypot, y, x);
    }
  }

  /** The three magnitudes the code meets: cos pitch, the same again for the third
      row, and 1 for the pitch pair. */
  lemma Magnitudes(a: real, b: real, c: real, d: real, e: real, f: real, g: real, p: real, q: real, h: real)
    requires Entries(a, b, c, d, e, f, g, p, q) && IsLength(h, a, d)
    ensures h * h == 1.0 - g * g && IsLength(h, q, p) && IsLength(1.0, h, -g)
  {
    FirstColumnIsUnit(a, b, c, d, e, f, g, p, q);
  }

  lemma RegularEntries(a: real, b: real, c: real, d: real, e: real, f: real, g: real, p: real, q: real, h: real)
    requires Entries(a, b, c, d, e, f, g, p, q) && h > 0.0 && h * h == 1.0 - g * g
    ensures Rebuild(Rpy(Angle(q / h, p / h), Angle(h, -g), Angle(a / h, d / h)))
         == Mat(Vec(a, b, c), Vec(d, e, f), Vec(g, p, q))
  {
    Numerators(a, b, c, d, e, f, g, p, q, h * h);
    QuotientDifference(a, -g, p, d, q, h, b);
    QuotientSum(a, -g, q, d, p, h, c);
    QuotientSum(d, -g, p, a, q, h, e);
    QuotientDifference(d, -g, q, a, p, h, f);
  }

  lemma GimbalEntries(a: real, b: real, c: real, d: real, e: real, f: real, g: real, p: real, q: real, h: real)
    requires Entries(a, b, c, d, e, f, g, p, q) && d == 0.0 && a == h
    ensures Rebuild(Rpy(Angle(e, -f), Angle(h, -g), Angle(1.0, 0.0))) == Mat(Vec(a, b, c), Vec(d, e, f), Vec(g, p, q))
    ensures e * e + f * f == 1.0
  {
  }

  lemma RegularBranch(hypot: (real, real) -> real, m: Mat)
    requires IsHypot(hypot) && Proper(m) && hypot(m.r0.x, m.r1.x) > SINGULAR
    ensures Rebuild(Extract(hypot, m)) == m
  {
    var h := hypot(m.r0.x, m.r1.x);
    ProperEntries(m);
    assert IsLength(h, m.r0.x, m.r1.x);
    Magnitudes(m.r0.x, m.r0.y, m.r0.z, m.r1.x, m.r1.y, m.r1.z, m.r2.x, m.r2.y, m.r2.z, h);
    AngleOf(hypot, m.r2.y, m.r2.z, h);
    AngleOf(hypot, m.r1.x, m.r0.x, h);
    AngleOf(hypot, -m.r2.x, h, 1.0);
    RegularEntries(m.r0.x, m.r0.y, m.r0.z, m.r1.x, m.r1.y, m.r1.z, m.r2.x, m.r2.y, m.r2.z, h);
    hide Entries, Proper, IsLength, IsHypot, Atan2, Rebuild;
  }

  lemma GimbalBranch(hypot: (real, real) -> real, m: Mat)
    requires IsHypot(hypot) && Proper(m) && hypot(m.r0.x, m.r1.x) <= SINGULAR
    ensures Rebuild(Extract(hypot, m)) == m <==> m.r1.x == 0.0 && m.r0.x >= 0.0
  {
    var h := hypot(m.r0.x, m.r1.x);
    ProperEntries(m);
    assert IsLength(h, m.r0.x, m.r1.x);
    Magnitudes(m.r0.x, m.r0.y, m.r0.z, m.r1.x, m.r1.y, m.r1.z, m.r2.x, m.r2.y, m.r2.z, h);
    AngleOf(hypot, -m.r2.x, h, 1.0);
    if m.r1.x == 0.0 && m.r0.x >= 0.0 {
      SqOrder(h, m.r0.x);
      GimbalEntries(m.r0.x, m.r0.y, m.r0.z, m.r1.x, m.r1.y, m.r1.z, m.r2.x, m.r2.y, m.r2.z, h);
      AngleOf(hypot, -m.r1.z, m.r1.y, 1.0);
    } else {
      hide Entries, Proper, IsHypot, Atan2;
      assert Rebuild(Extract(hypot, m)).r0.x == 1.0 * (h / 1.0);
    }
  }

  /** Either the regular branch is taken, or the first column already has yaw 0
      (as it has when cos pitch is exactly 0). */
  predicate ClearOfGimbal(hypot: (real, real) -> real, m: Mat) {
    hypot(m.r0.x, m.r1.x) > SINGULAR || (m.r1.x == 0.0 && m.r0.x >= 0.0)
  }

  /** _rpy_from_matrix inverts _rotation_matrix on a proper rotation exactly when
      cos pitch is above the threshold, or the first column already has yaw 0. */
  lemma ExtractionInvertsIff(hypot: (real, real) -> real, m: Mat)
    requires IsHypot(hypot) && Proper(m)
    ensures Rebuild(Extract(hypot, m)) == m <==> ClearOfGimbal(hypot, m)
  {
    hide Rebuild, Extract;
    if hypot(m.r0.x, m.r1.x) > SINGULAR {
      RegularBranch(hypot, m);
    } else {
      GimbalBranch(hypot, m);
    }
  }

  const TILT := 0.0000000001

  /** A pitch of almost a right angle: cos pitch is about 2e-10. */
  function SteepPitch(): Angle {
    Angle(2.0 * TILT / (1.0 + TILT * TILT), (1.0 - TILT * TILT) / (1.0 + TILT * TILT))
  }

  lemma SteepPitchIsSteep()
    ensures OnCircle(SteepPitch()) && 0.0 < SteepPitch().c < SINGULAR
  {
  }

  lemma QuarterTurnColumn(pitch: Angle)
    ensures RotationMatrix(Angle(1.0, 0.0), pitch, Angle(0.0, 1.0)).r0.x == 0.0
    ensures RotationMatrix(Angle(1.0, 0.0), pitch, Angle(0.0, 1.0)).r1.x == pitch.c
  {
  }

  lemma HypotOfOne(hypot: (real, real) -> real, y: real)
    requires IsHypot(hypot) && y >= 0.0
    ensures hypot(0.0, y) == y
  {
    assert IsLength(hypot(0.0, y), 0.0, y);
    SqOrder(hypot(0.0, y), y);
  }

  /** At a quarter turn of yaw every rotation in the near-singular band is lost. */
  lemma BandLosesYaw(hypot: (real, real) -> real, pitch: Angle)
    requires IsHypot(hypot) && OnCircle(pitch) && 0.0 < pitch.c <= SINGULAR
    ensures var m := RotationMatrix(Angle(1.0, 0.0), pitch, Angle(0.0, 1.0)); Rebuild(Extract(hypot, m)) != m
  {
    var roll, yaw := Angle(1.0, 0.0), Angle(0.0, 1.0);
    assert OnCircle(roll) && OnCircle(yaw);
    QuarterTurnColumn(pitch);
    HypotOfOne(hypot, pitch.c);
    hide IsHypot, OnCircle, RotationMatrix, Extract, Proper;
    RotationIsProper(roll, pitch, yaw);
    ExtractionInvertsIff(hypot, RotationMatrix(roll, pitch, yaw));
  }

  /** Such a rotation. */
  lemma SteepPitchIsLost(hypot: (real, real) -> real)
    requires IsHypot(hypot)
    ensures var m := RotationMatrix(Angle(1.0, 0.0), SteepPitch(), Angle(0.0, 1.0)); Rebuild(Extract(hypot, m)) != m
  {
    SteepPitchIsSteep();
    BandLosesYaw(hypot, SteepPitch());
  }

  /** At cos pitch exactly 0 the pinned yaw loses nothing. */
  lemma ExactGimbalInverts(hypot: (real, real) -> real, m: Mat)
    requires IsHypot(hypot) && Proper(m) && hypot(m.r0.x, m.r1.x) == 0.0
    ensures Rebuild(Extract(hypot, m)) == m
  {
    hide Rebuild, Extract, Proper;
    assert IsLength(0.0, m.r0.x, m.r1.x);
    SquaresVanish(m.r0.x, m.r1.x);
    ExtractionInvertsIff(hypot, m);
  }

  lemma SquaresVanish(x: real, y: real)
    requires x * x + y * y == 0.0
    ensures x == 0.0 && y == 0.0
  {
    if x != 0.0 { SqLess(0.0, if x > 0.0 then x else -x); }
    if y != 0.0 { SqLess(0.0, if y > 0.0 then y else -y); }
  }

  // ---- poses of the kit ----

  datatype Transform6 = Transform6(position: Vec, rotation: Rpy)
  datatype KitConfig = KitConfig(baseToKit: Transform6, kitToSensor: map<string, Transform6>)

  predicate AllOnCircle(r: Rpy) {
    OnCircle(r.roll) && OnCircle(r.pitch) && OnCircle(r.yaw)
  }

  function Plus(a: Vec, b: Vec): Vec {
    Vec(a.x + b.x, a.y + b.y, a.z + b.z)
  }

  /** Where a point given in a frame lies in that frame's parent. */
  function Place(t: Transform6, v: Vec): Vec {
    Plus(t.position, Apply(Rebuild(t.rotation), v))
  }

  /** A frame missing from the calibration raises KeyError. */
  function SensorInBaseLink(kit: KitConfig, frame: string): Option<Vec> {
    if frame !in kit.kitToSensor then None
    else Some(Plus(kit.baseToKit.position,
                   Apply(Rebuild(kit.baseToKit.rotation), kit.kitToSensor[frame].position)))
  }

  function ComposedRotation(kit: KitConfig, frame: string): Mat
    requires frame in kit.kitToSensor
  {
    MatMul(Rebuild(kit.baseToKit.rotation), Rebuild(kit.kitToSensor[frame].rotation))
  }

  function SensorRotationInBaseLink(hypot: (real, real) -> real, kit: KitConfig, frame: string): Option<Rpy> {
    if frame !in kit.kitToSensor then None
    else Some(Extract(hypot, ComposedRotation(kit, frame)))
  }

  lemma NestedDots(a0: real, a1: real, a2: real, v0: real, v1: real, v2: real,
                   b00: real, b01: real, b02: real, b10: real, b11: real, b12: real, b20: real, b21: real, b22: real)
    ensures Dot3(Dot3(a0, a1, a2, b00, b10, b20), Dot3(a0, a1, a2, b01, b11, b21), Dot3(a0, a1, a2, b02, b12, b22), v0, v1, v2)
         == Dot3(a0, a1, a2, Dot3(b00, b01, b02, v0, v1, v2), Dot3(b10, b11, b12, v0, v1, v2), Dot3(b20, b21, b22, v0, v1, v2))
  {
  }

  /** The matrix product is composition. */
  lemma ProductApplies(a: Mat, b: Mat, v: Vec)
    ensures Apply(MatMul(a, b), v) == Apply(a, Apply(b, v))
  {
    hide Dot3;
    forall r: Vec ensures Dot(RowTimes(r, b), v) == Dot(r, Apply(b, v)) {
      NestedDots(r.x, r.y, r.z, v.x, v.y, v.z,
                 b.r0.x, b.r0.y, b.r0.z, b.r1.x, b.r1.y, b.r1.z, b.r2.x, b.r2.y, b.r2.z);
    }
  }

  lemma ApplyAdds(m: Mat, u: Vec, v: Vec)
    ensures Apply(m, Plus(u, v)) == Plus(Apply(m, u), Apply(m, v))
  {
  }

  ghost predicate ActAlike(a: Mat, b: Mat) {
    forall v :: Apply(a, v) == Apply(b, v)
  }

  lemma SameActionSameMatrix(a: Mat, b: Mat)
    requires ActAlike(a, b)
    ensures a == b
  {
    assert Apply(a, Vec(1.0, 0.0, 0.0)) == Apply(b, Vec(1.0, 0.0, 0.0));
    assert Apply(a, Vec(0.0, 1.0, 0.0)) == Apply(b, Vec(0.0, 1.0, 0.0));
    assert Apply(a, Vec(0.0, 0.0, 1.0)) == Apply(b, Vec(0.0, 0.0, 1.0));
  }

  ghost predicate PlacesAlike(kit: KitConfig, frame: string, composed: Transform6)
    requires frame in kit.kitToSensor
  {
    forall v :: Place(composed, v) == Place(kit.baseToKit, Place(kit.kitToSensor[frame], v))
  }

  lemma PlaceThroughKit(kit: KitConfig, frame: string, v: Vec)
    requires frame in kit.kitToSensor
    ensures Place(kit.baseToKit, Place(kit.kitToSensor[frame], v))
         == Plus(SensorInBaseLink(kit, frame).value, Apply(ComposedRotation(kit, frame), v))
  {
    hide Apply, Rebuild, MatMul;
    var base, sensor := kit.baseToKit, kit.kitToSensor[frame];
    ProductApplies(Rebuild(base.rotation), Rebuild(sensor.rotation), v);
    ApplyAdds(Rebuild(base.rotation), sensor.position, Apply(Rebuild(sensor.rotation), v));
  }

  /** The single pose the kit reports for a sensor (composed position, extracted
      rotation) moves every point like the two calibration transforms in turn,
      exactly when the composed rotation is clear of the gimbal band or already
      has yaw 0. */
  lemma SensorPoseComposesIff(hypot: (real, real) -> real, kit: KitConfig, frame: string)
    requires IsHypot(hypot) && frame in kit.kitToSensor
    requires AllOnCircle(kit.baseToKit.rotation) && AllOnCircle(kit.kitToSensor[frame].rotation)
    ensures PlacesAlike(kit, frame, Transform6(SensorInBaseLink(kit, frame).value,
                                               SensorRotationInBaseLink(hypot, kit, frame).value))
        <==> ClearOfGimbal(hypot, ComposedRotation(kit, frame))
  {
    hide Apply, Rebuild, MatMul, Proper, Extract, IsHypot, OnCircle;
    var m := ComposedRotation(kit, frame);
    var base, sensor := kit.baseToKit.rotation, kit.kitToSensor[frame].rotation;
    RebuiltIsProper(base);
    RebuiltIsProper(sensor);
    ProductIsProper(Rebuild(base), Rebuild(sensor));
    ExtractionInvertsIff(hypot, m);
    var composed := Transform6(SensorInBaseLink(kit, frame).value, SensorRotationInBaseLink(hypot, kit, frame).value);
    var rebuilt := Rebuild(composed.rotation);
    forall v ensures Place(composed, v) == Place(kit.baseToKit, Place(kit.kitToSensor[frame], v)) <==> Apply(rebuilt, v) == Apply(m, v) {
      PlaceThroughKit(kit, frame, v);
      PlusCancels(composed.position, Apply(rebuilt, v), Apply(m, v));
    }
    if PlacesAlike(kit, frame, composed) {
      forall v ensures Apply(rebuilt, v) == Apply(m, v) {
        assert Place(composed, v) == Place(kit.baseToKit, Place(kit.kitToSensor[frame], v));
      }
      SameActionSameMatrix(rebuilt, m);
    }
  }

  lemma RebuiltIsProper(r: Rpy)
    requires AllOnCircle(r)
    ensures Proper(Rebuild(r))
  {
    RotationIsProper(r.roll, r.pitch, r.yaw);
  }

  lemma PlusCancels(p: Vec, a: Vec, b: Vec)
    ensures Plus(p, a) == Plus(p, b) <==> a == b
  {
  }
}
