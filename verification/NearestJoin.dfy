/** Pairing estimator stamps with ground-truth stamps: the vectorised binary
    search against the plain linear scan. */
module NearestJoin {
  import opened Prelude

  ghost predicate Increasing(b: seq<int>) {
    forall i, j :: 0 <= i < j < |b| ==> b[i] < b[j]
  }

  ghost predicate Nondecreasing(b: seq<int>) {
    forall i, j :: 0 <= i <= j < |b| ==> b[i] <= b[j]
  }

  function Gap(x: int, y: int): (g: nat)
    ensures g == x - y || g == y - x
  {
    if x <= y then y - x else x - y
  }

  /** `searchsorted` on sorted stamps: the first index whose stamp is not below x. */
  function Insertion(b: seq<int>, x: int): (j: nat)
    ensures j <= |b| && (forall i :: 0 <= i < j ==> b[i] < x) && (j < |b| ==> b[j] >= x)
  {
    if b == [] || b[0] >= x then 0 else 1 + Insertion(b[1..], x)
  }

  /** numpy indexing: a negative index counts from the end. */
  function At(b: seq<int>, j: int): int
    requires -|b| <= j < |b|
  {
    if j < 0 then b[|b| + j] else b[j]
  }

  /** `np.clip` of the search position to 1 .. |b| - 1, the upper bound winning. */
  function Position(b: seq<int>, x: int): (k: nat)
    requires b != []
    ensures k < |b| && (k == 0 <==> |b| == 1)
  {
    var inner := if Insertion(b, x) < 1 then 1 else Insertion(b, x);
    if inner > |b| - 1 then |b| - 1 else inner
  }

  /** The index the join computes for one stamp; -1 when there is one stamp only. */
  function Choose(b: seq<int>, x: int): (j: int)
    requires b != []
    ensures -1 <= j < |b| && (j == -1 <==> |b| == 1)
  {
    var k := Position(b, x);
    if Gap(x, At(b, k - 1)) <= Gap(x, At(b, k)) then k - 1 else k
  }

  /** `min(gt, key=...)` over the whole series: its first minimiser. */
  function LinearScan(b: seq<int>, x: int): (j: nat)
    requires b != []
    ensures j < |b|
    ensures forall i :: 0 <= i < |b| ==> Gap(x, b[j]) <= Gap(x, b[i]) && (i < j ==> Gap(x, b[j]) < Gap(x, b[i]))
  {
    var n := |b| - 1;
    if n == 0 then 0
    else
      var best := LinearScan(b[..n], x);
      assert forall i :: 0 <= i < n ==> b[..n][i] == b[i];
      if Gap(x, b[n]) < Gap(x, b[best]) then n else best
  }

  /** On any sorted series the chosen stamp is a nearest one. */
  lemma ChosenIsNearest(b: seq<int>, x: int)
    requires b != [] && Nondecreasing(b)
    ensures forall i :: 0 <= i < |b| ==> Gap(x, At(b, Choose(b, x))) <= Gap(x, b[i])
  {
    var s, n := Insertion(b, x), |b|;
    if n > 1 {
      var k := if s < 1 then 1 else if s > n - 1 then n - 1 else s;
      forall i | 0 <= i < n ensures Gap(x, b[k - 1]) <= Gap(x, b[i]) || Gap(x, b[k]) <= Gap(x, b[i]) {
        if i < k { assert b[i] <= b[k - 1]; } else { assert b[k] <= b[i]; }
      }
    }
  }

  /** The stamp before the search position repeats the one before it, and is taken. */
  predicate TakesRepeat(b: seq<int>, x: int)
    requires |b| >= 2
  {
    var k := Position(b, x);
    k >= 2 && b[k - 2] == b[k - 1] && Gap(x, b[k - 1]) <= Gap(x, b[k])
  }

  /** It is the linear scan's own choice exactly when the search does not end just
      after a repeated stamp that is as near as the next one; so on strictly
      increasing stamps the two always agree. */
  lemma ChoosesLikeLinearScanIff(b: seq<int>, x: int)
    requires |b| >= 2 && Nondecreasing(b)
    ensures Choose(b, x) == LinearScan(b, x) <==> !TakesRepeat(b, x)
  {
    var j, l := Choose(b, x), LinearScan(b, x);
    ChosenIsNearest(b, x);
    assert Gap(x, b[j]) == Gap(x, b[l]) && l <= j;
    if l < j {
      assert b[l] <= b[j - 1] <= b[j];
      ChosenLeftmostValue(b, x);
    }
  }

  /** On a repeated stamp the search takes the second copy, the scan the first. */
  lemma RepeatedStampDiffers()
    ensures Choose([0, 0, 10], 1) == 1 && LinearScan([0, 0, 10], 1) == 0
  {
    var b := [0, 0, 10];
    assert Insertion(b, 1) == 2;
    ChoosesLikeLinearScanIff(b, 1);
  }

  /** Ties between an earlier and a later stamp go to the earlier one. */
  lemma ChosenLeftmostValue(b: seq<int>, x: int)
    requires |b| >= 2 && Nondecreasing(b)
    ensures forall i :: 0 <= i < Choose(b, x) && Gap(x, b[i]) == Gap(x, b[Choose(b, x)]) ==> b[i] == b[Choose(b, x)]
  {
    var s, n, j := Insertion(b, x), |b|, Choose(b, x);
    forall i | 0 <= i < j && Gap(x, b[i]) == Gap(x, b[j]) ensures b[i] == b[j] {
      assert b[i] <= b[j];
      if j < s { assert b[i] < x && b[j] < x; } else { assert b[i] <= b[j - 1]; }
    }
  }

  datatype Pair = Pair(i: nat, j: int)

  /** Kept indices of `a` with their partners in `b`; an empty `b` raises. */
  function Join(a: seq<int>, b: seq<int>, tol: nat): (r: Option<seq<Pair>>)
    ensures r.None? <==> a != [] && b == []
  {
    if a == [] then Some([])
    else if b == [] then None
    else
      var n := |a| - 1;
      var head := Join(a[..n], b, tol).value;
      var j := Choose(b, a[n]);
      Some(if Gap(a[n], At(b, j)) <= tol then head + [Pair(n, j)] else head)
  }

  /** The join by linear scans alone, one per stamp. */
  function LinearJoin(a: seq<int>, b: seq<int>, tol: nat): seq<Pair>
    requires b != []
  {
    if a == [] then []
    else
      var n := |a| - 1;
      var j := LinearScan(b, a[n]);
      var head := LinearJoin(a[..n], b, tol);
      if Gap(a[n], b[j]) <= tol then head + [Pair(n, j)] else head
  }

  /** On strictly increasing stamps the fast join is the brute-force join. */
  lemma {:induction false} JoinIsLinearJoin(a: seq<int>, b: seq<int>, tol: nat)
    requires |b| >= 2 && Increasing(b)
    ensures Join(a, b, tol) == Some(LinearJoin(a, b, tol))
    decreases |a|
  {
    if a != [] {
      JoinIsLinearJoin(a[..|a| - 1], b, tol);
      ChoosesLikeLinearScanIff(b, a[|a| - 1]);
    }
  }

  /** A kept stamp is paired with the scan's own choice, within tolerance. */
  ghost predicate PairsNearest(a: seq<int>, b: seq<int>, tol: nat, p: Pair)
    requires b != []
  {
    p.i < |a| && p.j == LinearScan(b, a[p.i]) && a[p.i] - tol <= b[p.j] <= a[p.i] + tol
  }

  lemma {:induction false} LinearJoinPairs(a: seq<int>, b: seq<int>, tol: nat)
    requires b != []
    ensures forall k :: 0 <= k < |LinearJoin(a, b, tol)| ==> PairsNearest(a, b, tol, LinearJoin(a, b, tol)[k])
    ensures forall k, l :: 0 <= k < l < |LinearJoin(a, b, tol)| ==> LinearJoin(a, b, tol)[k].i < LinearJoin(a, b, tol)[l].i
    decreases |a|
  {
    if a != [] {
      var n := |a| - 1;
      var head := LinearJoin(a[..n], b, tol);
      LinearJoinPairs(a[..n], b, tol);
      forall p | PairsNearest(a[..n], b, tol, p) ensures PairsNearest(a, b, tol, p) && p.i < n {
        assert a[..n][p.i] == a[p.i];
      }
    }
  }

  ghost predicate Keeps(r: seq<Pair>, i: nat) {
    exists k :: 0 <= k < |r| && r[k].i == i
  }

  lemma KeepsAppend(r: seq<Pair>, p: Pair, i: nat)
    ensures Keeps(r + [p], i) <==> Keeps(r, i) || p.i == i
  {
    var more := r + [p];
    if Keeps(r, i) {
      var k :| 0 <= k < |r| && r[k].i == i;
      assert more[k].i == i;
    }
    if p.i == i { assert more[|r|].i == i; }
  }

  /** And that join keeps exactly the stamps with some partner within tolerance. */
  lemma {:induction false} LinearJoinKeepsIff(a: seq<int>, b: seq<int>, tol: nat, i: nat)
    requires b != []
    ensures Keeps(LinearJoin(a, b, tol), i) <==>
              i < |a| && exists j :: 0 <= j < |b| && a[i] - tol <= b[j] <= a[i] + tol
    decreases |a|
  {
    if a != [] {
      var n, head := |a| - 1, LinearJoin(a[..|a| - 1], b, tol);
      var j := LinearScan(b, a[n]);
      LinearJoinKeepsIff(a[..n], b, tol, i);
      assert (exists l :: 0 <= l < |b| && a[n] - tol <= b[l] <= a[n] + tol) <==> Gap(a[n], b[j]) <= tol;
      KeepsAppend(head, Pair(n, j), i);
      assert i < n ==> a[..n][i] == a[i];
    }
  }
}
