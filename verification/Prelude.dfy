/** Result types shared by the models. */
module Prelude {
  datatype Option<+T> = None | Some(value: T)

  /** A call that either returns a value or raises the named error. */
  datatype Result<+T, +E> = Ok(value: T) | Err(error: E)

  lemma TakeNext<T>(s: seq<T>, i: nat)
    requires i < |s|
    ensures s[..i + 1] == s[..i] + [s[i]]
  {
  }
}

/** Planar points over the reals. Distances are a parameter: `math.dist` and
    `np.linalg.norm` are any function whose square is the squared distance. */
module Plane {
  datatype XY = XY(x: real, y: real)

  type Metric = (XY, XY) -> real

  function Sq(v: real): real {
    v * v
  }

  function D2(p: XY, q: XY): real {
    Sq(q.x - p.x) + Sq(q.y - p.y)
  }

  /** The law is stated under a constant marker, so the solver squares only the
      distances that a proof asks about (through `Pythagoras`). */
  ghost predicate Euclidean(metric: Metric) {
    && (forall p, q :: metric(p, q) >= 0.0)
    && forall p, q {:trigger Asked(p, q)} :: Asked(p, q) ==> Sq(metric(p, q)) == D2(p, q)
  }

  ghost predicate Asked(p: XY, q: XY) {
    true
  }

  lemma Pythagoras(metric: Metric, p: XY, q: XY)
    requires Euclidean(metric)
    ensures Sq(metric(p, q)) == D2(p, q)
  {
    assert Asked(p, q);
  }

  lemma SqOrder(a: real, b: real)
    requires a >= 0.0 && b >= 0.0
    ensures Sq(a) <= Sq(b) <==> a <= b
    ensures Sq(a) == Sq(b) <==> a == b
  {
    if a < b { SqLess(a, b); } else if b < a { SqLess(b, a); }
  }

  lemma SqLess(a: real, b: real)
    requires 0.0 <= a < b
    ensures Sq(a) < Sq(b)
  {
    var d, t := b - a, b + a;
    assert d * t > 0.0;
    assert Sq(b) - Sq(a) == d * t;
  }
}
