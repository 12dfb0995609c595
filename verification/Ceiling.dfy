/** The sustainable-load ceiling: an unbroken dip below a threshold, and the
    disjuncts that declare a sweep point saturated. */
module Ceiling {
  import opened Prelude

  const NS_PER_S: real := 1000000000.0

  /** Samples i to j, ends included, are all below the threshold. */
  ghost predicate BelowThroughout(v: seq<real>, threshold: real, i: nat, j: nat)
    requires i <= j < |v|
  {
    forall k :: i <= k <= j ==> v[k] < threshold
  }

  ghost predicate Dip(t: seq<int>, v: seq<real>, threshold: real, sustain: real, i: nat, j: nat)
    requires i < j < |v| == |t|
  {
    BelowThroughout(v, threshold, i, j) && Elapsed(t[i], t[j]) >= sustain
  }

  /** Nanoseconds as seconds. */
  function Elapsed(from: int, to: int): (s: real)
    ensures s * 1000000000.0 == (to - from) as real
  {
    (to - from) as real / NS_PER_S
  }

  ghost predicate HasDip(t: seq<int>, v: seq<real>, threshold: real, sustain: real)
    requires |t| == |v|
  {
    exists i, j :: 0 <= i < j < |v| && Dip(t, v, threshold, sustain, i, j)
  }

  /** Sample i opens an unbroken stretch: it is the first one below the threshold. */
  ghost predicate Opens(v: seq<real>, threshold: real, i: nat)
    requires i < |v|
  {
    v[i] < threshold && (i == 0 || v[i - 1] >= threshold)
  }

  /** A stretch, measured from the sample that opens it, lasts long enough. */
  ghost predicate HasLongStretch(t: seq<int>, v: seq<real>, threshold: real, sustain: real)
    requires |t| == |v|
  {
    exists i, j :: 0 <= i < j < |v| && Opens(v, threshold, i) && Dip(t, v, threshold, sustain, i, j)
  }

  ghost predicate Sorted(t: seq<int>) {
    forall i, j :: 0 <= i <= j < |t| ==> t[i] <= t[j]
  }

  lemma EarlierStartIsLonger(t: seq<int>, i: nat, j: nat, k: nat)
    requires Sorted(t) && i <= j <= k < |t|
    ensures Elapsed(t[j], t[k]) <= Elapsed(t[i], t[k])
  {
    assert t[i] <= t[j];
  }

  /** The sample that opens the stretch sample j lies in. */
  lemma OpeningOf(v: seq<real>, threshold: real, j: nat) returns (i: nat)
    requires j < |v| && v[j] < threshold
    ensures i <= j && Opens(v, threshold, i) && BelowThroughout(v, threshold, i, j)
  {
    i := j;
    while i > 0 && v[i - 1] < threshold
      invariant i <= j && BelowThroughout(v, threshold, i, j)
    {
      i := i - 1;
    }
  }

  /** With sorted times that is the two-sample definition: some two samples at least
      `sustain` apart have every sample between them, ends included, below. */
  lemma LongStretchIffDip(t: seq<int>, v: seq<real>, threshold: real, sustain: real)
    requires |t| == |v| && Sorted(t)
    ensures HasLongStretch(t, v, threshold, sustain) <==> HasDip(t, v, threshold, sustain)
  {
    if i, j :| 0 <= i < j < |v| && Dip(t, v, threshold, sustain, i, j) {
      var from := OpeningOf(v, threshold, i);
      EarlierStartIsLonger(t, from, i, j);
      assert Opens(v, threshold, from) && Dip(t, v, threshold, sustain, from, j);
    }
  }

  /** One pass with a resettable start decides it, for any sample times. */
  method SustainedBelow(t: seq<int>, v: seq<real>, threshold: real, sustain: real) returns (hit: bool)
    requires |t| == |v|
    ensures hit <==> HasLongStretch(t, v, threshold, sustain)
  {
    var start: Option<int> := None;  // the stamp that opened the dip
    ghost var at: nat := 0;          // and its index
    for k := 0 to |t|
      invariant start.None? ==> k == 0 || v[k - 1] >= threshold
      invariant start.Some? ==> at < k && start.value == t[at] && BelowThroughout(v, threshold, at, k - 1)
      invariant start.Some? ==> Opens(v, threshold, at)
      invariant forall i, j :: 0 <= i < j < k ==> !(Opens(v, threshold, i) && Dip(t, v, threshold, sustain, i, j))
    {
      if v[k] < threshold {
        if start.None? {
          start, at := Some(t[k]), k;
        } else if Elapsed(start.value, t[k]) >= sustain {
          assert Dip(t, v, threshold, sustain, at, k);
          return true;
        }
        forall i | 0 <= i < k ensures !(Opens(v, threshold, i) && Dip(t, v, threshold, sustain, i, k)) {
          OneOpening(v, threshold, i, at, k);
        }
      } else {
        start := None;
      }
    }
    hit := false;
  }

  lemma OneOpening(v: seq<real>, threshold: real, i: nat, at: nat, k: nat)
    requires i < k < |v| && at <= k && Opens(v, threshold, at) && BelowThroughout(v, threshold, at, k)
    ensures Opens(v, threshold, i) && BelowThroughout(v, threshold, i, k) ==> i == at
  {
  }

  datatype Reason = SlowClock | SlowTicks | SlowPublisher | QualityFailed

  datatype CeilingError = NoSeries | LengthMismatch

  datatype Verdict = Verdict(reached: bool, reasons: seq<Reason>)

  datatype Limits = Limits(rtf: real, sustain: real, rate: real, tick: real)

  /** Reached iff one of the four registered disjuncts holds, each reason named
      exactly when its own disjunct does; refused when no series was measured. */
  method EvaluateCeiling(t: seq<int>, rtf: Option<seq<real>>, publisherRatio: real, qualityOk: bool,
                         ticks: Option<seq<real>>, limits: Limits)
    returns (r: Result<Verdict, CeilingError>)
    ensures r == Err(NoSeries) <==> rtf.None? && ticks.None?
    ensures r == Err(LengthMismatch) <==>
              (rtf.Some? && |rtf.value| != |t|) || (ticks.Some? && |ticks.value| != |t|)
    ensures r.Ok? ==> var v := r.value;
              && (SlowClock in v.reasons <==> rtf.Some? && HasLongStretch(t, rtf.value, limits.rtf, limits.sustain))
              && (SlowTicks in v.reasons <==> ticks.Some? && HasLongStretch(t, ticks.value, limits.tick, limits.sustain))
              && (SlowPublisher in v.reasons <==> publisherRatio < limits.rate)
              && (QualityFailed in v.reasons <==> !qualityOk)
              && (v.reached <==> v.reasons != [])
  {
    if rtf.None? && ticks.None? { return Err(NoSeries); }
    var reasons: seq<Reason> := [];
    if rtf.Some? {
      if |rtf.value| != |t| { return Err(LengthMismatch); }
      var dip := SustainedBelow(t, rtf.value, limits.rtf, limits.sustain);
      if dip { reasons := reasons + [SlowClock]; }
    }
    if ticks.Some? {
      if |ticks.value| != |t| { return Err(LengthMismatch); }
      var dip := SustainedBelow(t, ticks.value, limits.tick, limits.sustain);
      if dip { reasons := reasons + [SlowTicks]; }
    }
    if publisherRatio < limits.rate { reasons := reasons + [SlowPublisher]; }
    if !qualityOk { reasons := reasons + [QualityFailed]; }
    r := Ok(Verdict(reasons != [], reasons));
  }
}
