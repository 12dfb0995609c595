/** CPU accounting of the resource sampler: what one sample reports, what the
    per-label bookkeeping keeps, and what a whole run of samples adds up to. */
module Sampler {
  import opened Prelude

  type Pid = nat
  type Ticks = map<Pid, int>

  // ---- sums over sets of PIDs ----

  ghost function SumOver(s: set<Pid>, f: Pid -> int): int {
    if s == {} then 0 else var p :| p in s; f(p) + SumOver(s - {p}, f)
  }

  lemma {:induction false} SumSplit(s: set<Pid>, f: Pid -> int, p: Pid)
    requires p in s
    ensures SumOver(s, f) == f(p) + SumOver(s - {p}, f)
    decreases |s|
  {
    var q :| q in s && SumOver(s, f) == f(q) + SumOver(s - {q}, f);
    if p != q {
      SumSplit(s - {q}, f, p);
      SumSplit(s - {p}, f, q);
      assert s - {q} - {p} == s - {p} - {q};
    }
  }

  lemma {:induction false} SumAdds(s: set<Pid>, f: Pid -> int, g: Pid -> int, h: Pid -> int)
    requires forall p :: p in s ==> h(p) == f(p) + g(p)
    ensures SumOver(s, h) == SumOver(s, f) + SumOver(s, g)
    decreases |s|
  {
    if s != {} {
      var p :| p in s;
      SumSplit(s, f, p);
      SumSplit(s, g, p);
      SumSplit(s, h, p);
      SumAdds(s - {p}, f, g, h);
    }
  }

  lemma {:induction false} SumIgnoresZeros(s: set<Pid>, big: set<Pid>, f: Pid -> int)
    requires s <= big && forall p :: p in big - s ==> f(p) == 0
    ensures SumOver(big, f) == SumOver(s, f)
    decreases |big|
  {
    if s != big {
      var p :| p in big && p !in s;
      SumSplit(big, f, p);
      SumIgnoresZeros(s, big - {p}, f);
    }
  }

  // ---- one sample ----

  /** Ticks a PID gained between two samples in which it appears; otherwise none. */
  function Gain(prev: Ticks, curr: Ticks, p: Pid): (g: int)
    ensures g >= 0
    ensures p in prev && p in curr ==> g >= curr[p] - prev[p] && (g == 0 || g == curr[p] - prev[p])
    ensures p !in prev || p !in curr ==> g == 0
  {
    if p in curr && p in prev && curr[p] > prev[p] then curr[p] - prev[p] else 0
  }

  ghost function Gains(prev: Ticks, curr: Ticks): Pid -> int {
    (p: Pid) => Gain(prev, curr, p)
  }

  ghost function TotalGain(prev: Ticks, curr: Ticks): int {
    SumOver(curr.Keys, Gains(prev, curr))
  }

  /** The PIDs resolved now, in dictionary order. */
  ghost predicate Lists(order: seq<Pid>, ticks: Ticks) {
    && (forall i, j :: 0 <= i < j < |order| ==> order[i] != order[j])
    && forall p :: p in order <==> p in ticks
  }

  function Percent(delta: int, interval: real, clkTck: int): real
    requires interval > 0.0 && clkTck > 0
  {
    delta as real / clkTck as real / interval * 100.0
  }

  method ComputeCpuPct(prev: Ticks, curr: Ticks, order: seq<Pid>, interval: real, clkTck: int)
    returns (cpu: Option<real>, ghost delta: int)
    requires clkTck > 0 && Lists(order, curr)
    ensures cpu.None? <==> interval <= 0.0
    ensures cpu.Some? ==> delta == TotalGain(prev, curr) && cpu.value == Percent(delta, interval, clkTck)
  {
    delta := 0;
    if interval <= 0.0 { return None, delta; }
    var sum := 0;
    ghost var f := Gains(prev, curr);
    ghost var seen: set<Pid> := {};
    for i := 0 to |order|
      invariant seen == set k | 0 <= k < i :: order[k]
      invariant sum == SumOver(seen, f)
    {
      var pid := order[i];
      assert pid !in seen && pid in curr;
      var base := if pid in prev then prev[pid] else curr[pid];
      sum := sum + if curr[pid] - base > 0 then curr[pid] - base else 0;
      SumSplit(seen + {pid}, f, pid);
      assert seen + {pid} - {pid} == seen;
      seen := seen + {pid};
    }
    assert forall p :: p in curr.Keys ==> p in order;
    assert seen == curr.Keys;
    delta := sum;
    cpu := Some(Percent(sum, interval, clkTck));
  }

  /** The reported percentage, times the interval it was divided by, is the gain. */
  lemma PercentInverts(delta: int, interval: real, clkTck: int)
    requires interval > 0.0 && clkTck > 0
    ensures Percent(delta, interval, clkTck) * interval * clkTck as real / 100.0 == delta as real
  {
    var a, c := delta as real, clkTck as real;
    var q := a / c;
    assert q * c == a;
    assert q / interval * interval == q;
    assert q / interval * 100.0 * interval == q * 100.0;
    assert q * 100.0 * c / 100.0 == q * c;
  }

  // ---- a run of samples for one label ----

  datatype Sample = Sample(mono: real, ticks: Ticks)

  ghost predicate IncreasingTimes(run: seq<Sample>) {
    forall i, j :: 0 <= i < j < |run| ==> run[i].mono < run[j].mono
  }

  /** Ticks the first n samples account for. */
  ghost function RunGain(run: seq<Sample>, n: nat): int
    requires n <= |run|
  {
    if n < 2 then 0 else RunGain(run, n - 1) + TotalGain(run[n - 2].ticks, run[n - 1].ticks)
  }

  /** Ticks one PID contributes over the first n samples. */
  function PidGain(run: seq<Sample>, n: nat, p: Pid): (g: int)
    requires n <= |run|
    ensures g >= 0
  {
    if n < 2 then 0 else PidGain(run, n - 1, p) + Gain(run[n - 2].ticks, run[n - 1].ticks, p)
  }

  ghost function Everyone(run: seq<Sample>, n: nat): set<Pid>
    requires n <= |run|
  {
    if n == 0 then {} else Everyone(run, n - 1) + run[n - 1].ticks.Keys
  }

  lemma {:induction false} KnownPids(run: seq<Sample>, n: nat, all: set<Pid>)
    requires n <= |run| && Everyone(run, n) <= all
    ensures forall i :: 0 <= i < n ==> run[i].ticks.Keys <= all
  {
    if n > 0 { KnownPids(run, n - 1, all); }
  }

  ghost function PidGains(run: seq<Sample>, n: nat): Pid -> int
    requires n <= |run|
  {
    (p: Pid) => PidGain(run, n, p)
  }

  /** Conservation: adding up per sample or per PID gives the same ticks. */
  lemma {:induction false} GainByPid(run: seq<Sample>, n: nat, all: set<Pid>)
    requires n <= |run| && Everyone(run, n) <= all
    ensures RunGain(run, n) == SumOver(all, PidGains(run, n))
  {
    if n < 2 {
      SumIgnoresZeros({}, all, PidGains(run, n));
    } else {
      GainByPid(run, n - 1, all);
      KnownPids(run, n, all);
      var prev, curr := run[n - 2].ticks, run[n - 1].ticks;
      SumIgnoresZeros(curr.Keys, all, Gains(prev, curr));
      SumAdds(all, PidGains(run, n - 1), Gains(prev, curr), PidGains(run, n));
    }
  }

  ghost predicate Present(run: seq<Sample>, n: nat, p: Pid)
    requires n <= |run|
  {
    forall i :: 0 <= i < n ==> p in run[i].ticks
  }

  /** The kernel's counter for this PID never runs backwards. */
  ghost predicate CounterGrows(run: seq<Sample>, n: nat, p: Pid)
    requires n <= |run|
  {
    forall i, j :: 0 <= i <= j < n && p in run[i].ticks && p in run[j].ticks ==> run[i].ticks[p] <= run[j].ticks[p]
  }

  /** A PID seen in every sample is charged exactly last minus first. */
  lemma {:induction false} PresentPidTelescopes(run: seq<Sample>, n: nat, p: Pid)
    requires 0 < n <= |run| && Present(run, n, p) && CounterGrows(run, n, p)
    ensures PidGain(run, n, p) == run[n - 1].ticks[p] - run[0].ticks[p]
  {
    if n > 1 { PresentPidTelescopes(run, n - 1, p); }
  }

  /** A PID that vanishes and returns is charged at most the whole growth of its
      counter between any sample that saw it first and one that saw it last. */
  lemma {:induction false} VanishingPidIsBounded(run: seq<Sample>, n: nat, p: Pid, first: nat, last: nat)
    requires n <= |run| && first <= last < n && p in run[first].ticks && p in run[last].ticks
    requires CounterGrows(run, n, p)
    requires forall i :: 0 <= i < n && (i < first || last < i) ==> p !in run[i].ticks
    ensures PidGain(run, n, p) <= run[last].ticks[p] - run[first].ticks[p]
    decreases n
  {
    if n - 1 == first {
      NeverSeenGainsNothing(run, n - 1, p);
    } else if last < n - 1 {
      VanishingPidIsBounded(run, n - 1, p, first, last);
    } else {
      var before := LastSeenBefore(run, n - 1, p, first);
      VanishingPidIsBounded(run, n - 1, p, first, before);
    }
  }

  lemma {:induction false} NeverSeenGainsNothing(run: seq<Sample>, n: nat, p: Pid)
    requires n <= |run| && forall i :: 0 <= i < n ==> p !in run[i].ticks
    ensures PidGain(run, n, p) == 0
  {
    if n > 1 { NeverSeenGainsNothing(run, n - 1, p); }
  }

  lemma LastSeenBefore(run: seq<Sample>, n: nat, p: Pid, first: nat) returns (k: nat)
    requires first < n <= |run| && p in run[first].ticks
    ensures first <= k < n && p in run[k].ticks && forall i :: k < i < n ==> p !in run[i].ticks
  {
    k := n - 1;
    while p !in run[k].ticks
      invariant first <= k < n && forall i :: k < i < n ==> p !in run[i].ticks
      decreases k
    {
      k := k - 1;
    }
  }

  // ---- the sampling loop and its per-label state ----

  type Label = string

  /** One pattern-entry reading of one cycle, in the order the loop takes them. */
  datatype Reading = Reading(name: Label, sample: Sample, order: seq<Pid>)

  /** The samples one label has had, in order. */
  function Of(who: Label, readings: seq<Reading>): seq<Sample> {
    if readings == [] then []
    else
      var n := |readings| - 1;
      var rest := Of(who, readings[..n]);
      if readings[n].name == who then rest + [readings[n].sample] else rest
  }

  /** What the sampler owes a label for its newest sample: the first one has no
      baseline; later ones divide the gain by the measured gap. */
  ghost predicate RowOf(run: seq<Sample>, row: real, clkTck: int)
    requires run != [] && clkTck > 0
  {
    var n := |run|;
    if n == 1 then row == 0.0
    else
      run[n - 2].mono < run[n - 1].mono
      && row == Percent(TotalGain(run[n - 2].ticks, run[n - 1].ticks), run[n - 1].mono - run[n - 2].mono, clkTck)
  }

  class Sampler {
    var prevTicks: map<Label, Ticks>
    var prevMono: map<Label, real>
    ghost var seen: seq<Reading>

    ghost predicate Valid()
      reads this
    {
      && prevTicks.Keys == prevMono.Keys
      && forall l :: Tracks(l)
    }

    /** Each label's state is the last sample of that label and no other. */
    ghost predicate Tracks(l: Label)
      reads this
    {
      var run := Of(l, seen);
      && (run == [] <==> l !in prevMono)
      && (l in prevMono && l in prevTicks && run != [] ==>
            prevTicks[l] == run[|run| - 1].ticks && prevMono[l] == run[|run| - 1].mono)
    }

    constructor ()
      ensures Valid() && seen == []
    {
      prevTicks, prevMono, seen := map[], map[], [];
    }

    /** One reading: the row it writes depends only on that label's own history. */
    method Take(r: Reading, interval: real, clkTck: int) returns (row: Option<real>)
      requires Valid() && clkTck > 0 && Lists(r.order, r.sample.ticks)
      modifies this
      ensures row.None? <==> if r.name in old(prevMono) then r.sample.mono <= old(prevMono)[r.name] else interval <= 0.0
      ensures row.None? ==> Valid() && seen == old(seen)
      ensures row.Some? ==> Valid() && seen == old(seen) + [r]
      ensures row.Some? ==> Of(r.name, seen) != [] && RowOf(Of(r.name, seen), row.value, clkTck)
    {
      ghost var run := Of(r.name, seen);
      assert Tracks(r.name);
      var elapsed := if r.name in prevMono then r.sample.mono - prevMono[r.name] else interval;
      var base := if r.name in prevTicks then prevTicks[r.name] else map[];
      ghost var delta;
      row, delta := ComputeCpuPct(base, r.sample.ticks, r.order, elapsed, clkTck);
      if row.None? { return; }
      if run == [] { NoBaselineNoGain(r.sample.ticks); PercentOfNothing(elapsed, clkTck); }
      ghost var before := seen;
      prevTicks := prevTicks[r.name := r.sample.ticks];
      prevMono := prevMono[r.name := r.sample.mono];
      seen := seen + [r];
      forall l ensures Tracks(l) {
        assert seen[..|seen| - 1] == before;
        assert old(Tracks(l));
      }
    }
  }

  lemma NoBaselineNoGain(curr: Ticks)
    ensures TotalGain(map[], curr) == 0
  {
    SumIgnoresZeros({}, curr.Keys, Gains(map[], curr));
  }

  lemma PercentOfNothing(interval: real, clkTck: int)
    requires interval > 0.0 && clkTck > 0
    ensures Percent(0, interval, clkTck) == 0.0
  {
  }

  /** Percentages recover the run's ticks: summed over a run's rows, percentage
      times gap times tick rate is what the PIDs gained. */
  ghost function Recovered(run: seq<Sample>, rows: seq<real>, clkTck: int, n: nat): real
    requires n <= |run| == |rows|
  {
    if n < 2 then 0.0
    else Recovered(run, rows, clkTck, n - 1) + rows[n - 1] * (run[n - 1].mono - run[n - 2].mono) * clkTck as real / 100.0
  }

  /** One row per sample, each what the sampler owes for the samples so far. */
  ghost predicate RowsFit(run: seq<Sample>, rows: seq<real>, clkTck: int)
    requires clkTck > 0
  {
    |run| == |rows| && forall k :: 0 < k <= |run| ==> RowOf(run[..k], rows[k - 1], clkTck)
  }

  lemma {:induction false} RowsRecoverGain(run: seq<Sample>, rows: seq<real>, clkTck: int, n: nat)
    requires clkTck > 0 && RowsFit(run, rows, clkTck) && n <= |run|
    ensures Recovered(run, rows, clkTck, n) == RunGain(run, n) as real
  {
    if n >= 2 {
      RowsRecoverGain(run, rows, clkTck, n - 1);
      assert RowOf(run[..n], rows[n - 1], clkTck);
      PercentInverts(TotalGain(run[n - 2].ticks, run[n - 1].ticks), run[n - 1].mono - run[n - 2].mono, clkTck);
    }
  }

  // ---- a whole run ----

  /** The rows written for one label. */
  function RowsOf(who: Label, readings: seq<Reading>, rows: seq<real>): seq<real>
    requires |readings| == |rows|
  {
    if readings == [] then []
    else
      var n := |readings| - 1;
      var rest := RowsOf(who, readings[..n], rows[..n]);
      if readings[n].name == who then rest + [rows[n]] else rest
  }

  /** Readings the loop gets through: a positive nominal interval, and for every
      label times that strictly increase. */
  ghost predicate Sampled(readings: seq<Reading>, interval: real) {
    readings == [] || (interval > 0.0 && forall who :: IncreasingTimes(Of(who, readings)))
  }

  lemma OneMoreTime(run: seq<Sample>, s: Sample)
    ensures IncreasingTimes(run + [s]) <==> IncreasingTimes(run) && (run != [] ==> run[|run| - 1].mono < s.mono)
  {
    var more := run + [s];
    if IncreasingTimes(more) {
      forall i, j | 0 <= i < j < |run| ensures run[i].mono < run[j].mono {
        assert more[i].mono < more[j].mono;
      }
      assert run != [] ==> more[|run| - 1].mono < more[|run|].mono;
    }
  }

  lemma OneMoreReading(readings: seq<Reading>, r: Reading, interval: real)
    ensures Sampled(readings + [r], interval) <==>
              Sampled(readings, interval) && interval > 0.0
              && (var run := Of(r.name, readings); run != [] ==> run[|run| - 1].mono < r.sample.mono)
  {
    var more := readings + [r];
    assert more[..|readings|] == readings;
    OneMoreTime(Of(r.name, readings), r.sample);
    assert Of(r.name, more) == Of(r.name, readings) + [r.sample];
    forall who | who != r.name ensures Of(who, more) == Of(who, readings) {
    }
    if readings == [] {
      assert forall who :: Of(who, readings) == [];
    }
  }

  /** One more reading and its row concern their own label alone. */
  lemma OneMoreRow(readings: seq<Reading>, rows: seq<real>, r: Reading, row: real, who: Label)
    requires |readings| == |rows|
    ensures Of(who, readings + [r]) == if who == r.name then Of(who, readings) + [r.sample] else Of(who, readings)
    ensures var before := RowsOf(who, readings, rows);
            RowsOf(who, readings + [r], rows + [row]) == if who == r.name then before + [row] else before
  {
    assert (readings + [r])[..|readings|] == readings && (rows + [row])[..|rows|] == rows;
  }

  lemma NothingWritten(who: Label, clkTck: int)
    requires clkTck > 0
    ensures RowsFit(Of(who, []), RowsOf(who, [], []), clkTck)
  {
  }

  lemma RowsFitGrows(run: seq<Sample>, rows: seq<real>, s: Sample, row: real, clkTck: int)
    requires clkTck > 0 && RowsFit(run, rows, clkTck) && RowOf(run + [s], row, clkTck)
    ensures RowsFit(run + [s], rows + [row], clkTck)
  {
    var more := run + [s];
    forall k | 0 < k <= |more| ensures RowOf(more[..k], (rows + [row])[k - 1], clkTck) {
      if k <= |run| {
        assert more[..k] == run[..k];
      } else {
        assert more[..k] == more;
      }
    }
  }

  /** The sampling loop over the readings of a run. It stops, with the error of the
      percentage, at the first reading whose label has not moved on in time; on what
      it got through, every label's rows recover exactly the ticks its PIDs gained. */
  method Run(readings: seq<Reading>, interval: real, clkTck: int) returns (rows: seq<real>)
    requires clkTck > 0 && forall r :: r in readings ==> Lists(r.order, r.sample.ticks)
    ensures |rows| <= |readings| && Sampled(readings[..|rows|], interval)
    ensures |rows| < |readings| ==> !Sampled(readings[..|rows| + 1], interval)
    ensures forall who :: Conserves(Of(who, readings[..|rows|]), RowsOf(who, readings[..|rows|], rows), clkTck)
  {
    hide RowOf, RowsFit, RowsOf, Percent, Recovered;
    rows := [];
    var sampler := new Sampler();
    var i := 0;
    assert readings[..0] == [];
    forall who ensures RowsFit(Of(who, readings[..0]), RowsOf(who, readings[..0], rows), clkTck) {
      NothingWritten(who, clkTck);
    }
    while i < |readings|
      invariant 0 <= i <= |readings| && |rows| == i && fresh(sampler)
      invariant sampler.Valid() && sampler.seen == readings[..i]
      invariant Sampled(readings[..i], interval)
      invariant forall who :: RowsFit(Of(who, readings[..i]), RowsOf(who, readings[..i], rows), clkTck)
    {
      ghost var before := readings[..i];
      var r := readings[i];
      TakeNext(readings, i);
      OneMoreReading(before, r, interval);
      assert sampler.Tracks(r.name);
      var row := sampler.Take(r, interval, clkTck);
      if row.None? { break; }
      assert (before + [r])[..i] == before;
      forall who ensures RowsFit(Of(who, before + [r]), RowsOf(who, before + [r], rows + [row.value]), clkTck) {
        OneMoreRow(before, rows, r, row.value, who);
        if who == r.name { RowsFitGrows(Of(who, before), RowsOf(who, before, rows), r.sample, row.value, clkTck); }
      }
      rows := rows + [row.value];
      i := i + 1;
    }
    forall who ensures Conserves(Of(who, readings[..i]), RowsOf(who, readings[..i], rows), clkTck) {
      FittingRowsConserve(Of(who, readings[..i]), RowsOf(who, readings[..i], rows), clkTck);
    }
  }

  /** The rows account for exactly the ticks gained over the run. */
  ghost predicate Conserves(run: seq<Sample>, rows: seq<real>, clkTck: int) {
    |run| == |rows| && Recovered(run, rows, clkTck, |run|) == RunGain(run, |run|) as real
  }

  lemma FittingRowsConserve(run: seq<Sample>, rows: seq<real>, clkTck: int)
    requires clkTck > 0 && RowsFit(run, rows, clkTck)
    ensures Conserves(run, rows, clkTck)
  {
    RowsRecoverGain(run, rows, clkTck, |run|);
  }

  // ---- the bound on a run ----

  /** A PID's count in the first, and in the last, of n samples that list it. */
  ghost function FirstCount(run: seq<Sample>, n: nat, p: Pid): int
    requires n <= |run|
  {
    if n == 0 then 0
    else if p in Everyone(run, n - 1) then FirstCount(run, n - 1, p)
    else if p in run[n - 1].ticks then run[n - 1].ticks[p] else 0
  }

  ghost function LastCount(run: seq<Sample>, n: nat, p: Pid): int
    requires n <= |run|
  {
    if n == 0 then 0 else if p in run[n - 1].ticks then run[n - 1].ticks[p] else LastCount(run, n - 1, p)
  }

  ghost function Growth(run: seq<Sample>, n: nat): Pid -> int
    requires n <= |run|
  {
    (p: Pid) => LastCount(run, n, p) - FirstCount(run, n, p)
  }

  lemma {:induction false} LastCountWasSeen(run: seq<Sample>, n: nat, p: Pid)
    requires n <= |run| && p in Everyone(run, n)
    ensures exists i :: 0 <= i < n && p in run[i].ticks && run[i].ticks[p] == LastCount(run, n, p)
  {
    if p !in run[n - 1].ticks { LastCountWasSeen(run, n - 1, p); }
  }

  lemma {:induction false} PidGainIsBounded(run: seq<Sample>, n: nat, p: Pid)
    requires n <= |run| && CounterGrows(run, n, p)
    ensures PidGain(run, n, p) <= LastCount(run, n, p) - FirstCount(run, n, p)
    ensures p !in Everyone(run, n) ==> LastCount(run, n, p) == 0
  {
    if n > 0 {
      PidGainIsBounded(run, n - 1, p);
      if p in run[n - 1].ticks && p in Everyone(run, n - 1) {
        LastCountWasSeen(run, n - 1, p);
      }
    }
  }

  lemma {:induction false} SumBounded(s: set<Pid>, f: Pid -> int, g: Pid -> int)
    requires forall p :: p in s ==> f(p) <= g(p)
    ensures SumOver(s, f) <= SumOver(s, g)
    decreases |s|
  {
    if s != {} {
      var p :| p in s;
      SumSplit(s, f, p);
      SumSplit(s, g, p);
      SumBounded(s - {p}, f, g);
    }
  }

  /** A run is charged at most the sum, over the PIDs it saw, of last count minus
      first count, whatever vanishes and returns in between. */
  lemma RunGainIsBounded(run: seq<Sample>, n: nat)
    requires n <= |run| && forall p :: CounterGrows(run, n, p)
    ensures RunGain(run, n) <= SumOver(Everyone(run, n), Growth(run, n))
  {
    var all := Everyone(run, n);
    GainByPid(run, n, all);
    forall p ensures PidGain(run, n, p) <= Growth(run, n)(p) {
      PidGainIsBounded(run, n, p);
    }
    SumBounded(all, PidGains(run, n), Growth(run, n));
  }
}
