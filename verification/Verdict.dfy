/** The duel's verdict table: run-level values from the admitted runs, one row per
    metric and arm, and the three-way reconciliation of each cell. */
module Verdict {
  import opened Prelude
  import opened RunWindow
  import opened Admission

  type Extractor = (Files, Manifest, Bounds) -> Result<real, string>

  /** The parts of a row's notes, before they are joined into one line. */
  datatype Note =
    | RunsExcluded(side: string, n: nat)
    | RunsInadmissible(side: string, n: nat)
    | UnderN(side: string, n: nat, minimum: int)
    | TooFewForInterval(a: nat, b: nat)
    | Unavailable(reasons: seq<string>)
    | Walk(walk: WalkError)
    | FailedWindow(name: string, why: string)
    | FailedRun(name: string, why: string)
    | FitResidual(medianA: real, medianB: real)
    | NoRuns
    | NotMeasurable(n: nat)
    | ZeroPublished(n: nat)

  // ---- run-level values ----

  function Values(records: seq<RunRecord>, x: Extractor): seq<real> {
    if records == [] then []
    else
      var r := records[|records| - 1];
      Values(records[..|records| - 1], x)
      + if r.window.Ok? && x(r.files, r.manifest, r.window.value).Ok?
        then [x(r.files, r.manifest, r.window.value).value] else []
  }

  function Failures(records: seq<RunRecord>, x: Extractor): seq<Note> {
    if records == [] then []
    else
      var r := records[|records| - 1];
      Failures(records[..|records| - 1], x)
      + match r.window
        case Err(why) => [FailedWindow(r.name, why)]
        case Ok(w) =>
          match x(r.files, r.manifest, w)
          case Err(why) => [FailedRun(r.name, why)]
          case Ok(_) => []
  }

  /** _apply_extractor: a run without a window is reported, never handed on. */
  method ApplyExtractor(records: seq<RunRecord>, x: Extractor) returns (values: seq<real>, errors: seq<Note>)
    ensures values == Values(records, x) && errors == Failures(records, x)
  {
    values, errors := [], [];
    var i := 0;
    while i < |records|
      invariant 0 <= i <= |records|
      invariant values == Values(records[..i], x) && errors == Failures(records[..i], x)
    {
      var r := records[i];
      assert records[..i + 1][..i] == records[..i];
      i := i + 1;
      if r.window.Err? {
        errors := errors + [FailedWindow(r.name, r.window.error)];
        continue;
      }
      match x(r.files, r.manifest, r.window.value) {
        case Ok(v) => values := values + [v];
        case Err(why) => errors := errors + [FailedRun(r.name, why)];
      }
    }
    assert records[..i] == records;
  }

  /** Every record yields a value or an error. */
  lemma {:induction false} ExtractionConserves(records: seq<RunRecord>, x: Extractor)
    ensures |Values(records, x)| + |Failures(records, x)| == |records|
  {
    if records != [] {
      ExtractionConserves(records[..|records| - 1], x);
    }
  }

  /** Which values, and in what order: a run has the value its extractor gives inside
      its window, or none, and the values of two stretches of runs follow each other. */
  lemma ValueOfOne(r: RunRecord, x: Extractor)
    ensures r.window.Ok? && x(r.files, r.manifest, r.window.value).Ok? ==>
              Values([r], x) == [x(r.files, r.manifest, r.window.value).value]
    ensures r.window.Err? || x(r.files, r.manifest, r.window.value).Err? ==> Values([r], x) == []
  {
    assert [r][..0] == [];
  }

  lemma {:induction false} ValuesFollow(a: seq<RunRecord>, b: seq<RunRecord>, x: Extractor)
    ensures Values(a + b, x) == Values(a, x) + Values(b, x)
  {
    if b == [] {
      assert a + b == a;
    } else {
      assert (a + b)[..|a + b| - 1] == a + b[..|b| - 1];
      ValuesFollow(a, b[..|b| - 1], x);
    }
  }

  // ---- one verdict row ----

  /** The median and the seeded bootstrap interval, as deterministic functions. */
  datatype Stats = Stats(median: seq<real> -> real, bootstrap: (seq<real>, seq<real>) -> (real, real))

  datatype Decision = Parity | ABetter | BBetter | Inconclusive | InsufficientData

  function EquivalenceDecision(ci: (real, real), margin: real): Decision {
    if ci.0 > -margin && ci.1 < margin then Parity
    else if ci.1 < 0.0 then ABetter
    else if ci.0 > 0.0 then BBetter
    else Inconclusive
  }

  ghost predicate Inside(ci: (real, real), margin: real) {
    -margin < ci.0 && ci.1 < margin
  }

  /** The meaning of each verdict: parity whenever the interval is inside the margin,
      and otherwise the side of zero the interval lies on, if it lies on one. */
  ghost predicate Decided(verdict: Decision, ci: (real, real), margin: real) {
    && (verdict == Parity <==> Inside(ci, margin))
    && (ci.0 <= ci.1 ==> (verdict == ABetter <==> !Inside(ci, margin) && ci.1 < 0.0))
    && (ci.0 <= ci.1 ==> (verdict == BBetter <==> !Inside(ci, margin) && ci.0 > 0.0))
    && (ci.0 <= ci.1 ==> (verdict == Inconclusive <==> !Inside(ci, margin) && ci.0 <= 0.0 <= ci.1))
    && verdict != InsufficientData
  }

  datatype VerdictRow = VerdictRow(metric: string, nA: nat, nB: nat, delta: Option<real>, ci: Option<(real, real)>,
                                   margin: real, verdict: Decision, notes: seq<Note>, arm: string)

  function If(b: bool, n: Note): seq<Note> {
    if b then [n] else []
  }

  /** What the walks of both cells skipped. */
  datatype Skipped = Skipped(excludedA: nat, excludedB: nat, inadmissibleA: nat, inadmissibleB: nat)

  function RowNotes(a: seq<real>, b: seq<real>, minN: int, skipped: Skipped): seq<Note> {
    If(skipped.excludedA > 0, RunsExcluded("A", skipped.excludedA))
    + If(skipped.excludedB > 0, RunsExcluded("B", skipped.excludedB))
    + If(skipped.inadmissibleA > 0, RunsInadmissible("A", skipped.inadmissibleA))
    + If(skipped.inadmissibleB > 0, RunsInadmissible("B", skipped.inadmissibleB))
    + If(|a| < minN, UnderN("a", |a|, minN))
    + If(|b| < minN, UnderN("b", |b|, minN))
    + If(|a| < 3 || |b| < 3, TooFewForInterval(|a|, |b|))
  }

  function VerdictRowOf(metric: string, a: seq<real>, b: seq<real>, margin: real, stats: Stats,
                        minN: int, skipped: Skipped, arm: string): (row: VerdictRow)
    ensures row.nA == |a| && row.nB == |b| && row.margin == margin && row.metric == metric && row.arm == arm
    ensures row.verdict == InsufficientData <==> |a| < 3 || |b| < 3
    ensures (row.delta.Some? <==> row.verdict != InsufficientData) && (row.ci.Some? <==> row.delta.Some?)
    ensures row.delta.Some? ==> row.delta.value == stats.median(a) - stats.median(b)
    ensures row.ci.Some? ==> row.ci.value == stats.bootstrap(a, b) && Decided(row.verdict, row.ci.value, margin)
  {
    var notes := RowNotes(a, b, minN, skipped);
    if |a| < 3 || |b| < 3 then
      VerdictRow(metric, |a|, |b|, None, None, margin, InsufficientData, notes, arm)
    else
      var delta := stats.median(a) - stats.median(b);
      var ci := stats.bootstrap(a, b);
      VerdictRow(metric, |a|, |b|, Some(delta), Some(ci), margin, EquivalenceDecision(ci, margin), notes, arm)
  }

  /** A side called better has the whole interval on its side and reaching the margin;
      wherever the interval covers the difference of medians, the verdict agrees with
      the medians themselves. */
  lemma VerdictAgreesWithMedians(metric: string, a: seq<real>, b: seq<real>, margin: real, stats: Stats,
                                 minN: int, skipped: Skipped, arm: string)
    ensures var row, ci := VerdictRowOf(metric, a, b, margin, stats, minN, skipped, arm), stats.bootstrap(a, b);
            var delta := stats.median(a) - stats.median(b);
            && (row.verdict == ABetter ==> ci.1 < 0.0 && (ci.0 <= -margin || ci.1 >= margin))
            && (row.verdict == BBetter ==> ci.0 > 0.0 && (ci.0 <= -margin || ci.1 >= margin))
            && (ci.0 <= delta <= ci.1 ==>
                  && (row.verdict == ABetter ==> stats.median(a) < stats.median(b))
                  && (row.verdict == BBetter ==> stats.median(b) < stats.median(a))
                  && (row.verdict == Parity ==> -margin < delta < margin)
                  && (row.verdict == Inconclusive ==> ci.0 <= 0.0 <= ci.1))
  {
  }

  // ---- the three-way reconciliation ----

  /** A loss rate over a run that published nothing is not a number. */
  datatype DropStats = DropStats(publisherDrop: real, observerLoss: Option<real>)

  datatype Summary = NoValue | NotANumber | Value(v: real)

  function AtLeastZero(x: real): real {
    if x > 0.0 then x else 0.0
  }

  function ExpectedCount(simLo: int, simHi: int, hz: real): (n: int)
    ensures n >= 1
    ensures n > 1 ==> (2 * n - 1) as real * 1000000000.0 <= 2.0 * ((simHi - simLo) as real * hz) <= (2 * n + 1) as real * 1000000000.0
    ensures n == 1 ==> 2.0 * ((simHi - simLo) as real * hz) <= 3.0 * 1000000000.0
  {
    var n := Round((simHi - simLo) as real / 1000000000.0 * hz);
    if n > 1 then n else 1
  }

  function ReconcileDrops(expected: int, published: nat, observed: nat): (d: DropStats)
    requires expected > 0
    ensures 0.0 <= d.publisherDrop <= 1.0
    ensures d.publisherDrop == 0.0 <==> published >= expected
    ensures published <= expected ==> d.publisherDrop * expected as real == (expected - published) as real
    ensures d.observerLoss.None? <==> published == 0
    ensures d.observerLoss.Some? ==> 0.0 <= d.observerLoss.value <= 1.0
                                     && (d.observerLoss.value == 0.0 <==> observed >= published)
    ensures 0 < published && observed <= published ==>
              d.observerLoss.value * published as real == (published - observed) as real
  {
    RatioOrder(published, expected);
    DropStats(AtLeastZero(1.0 - published as real / expected as real),
              if published == 0 then None
              else
                RatioOrder(observed, published);
                Some(AtLeastZero(1.0 - observed as real / published as real)))
  }

  lemma RatioOrder(n: nat, d: int)
    requires d > 0
    ensures n as real / d as real >= 0.0
    ensures n as real / d as real >= 1.0 <==> n >= d
  {
    var q := n as real / d as real;
    assert q * d as real == n as real;
  }

  /** What the analysis reads from one run's files. The counts are those inside the
      given sim-time bounds; no publisher file and no observed topic are None. */
  datatype Reader = Reader(resolve: Resolver,
                           published: (Files, string, int, int) -> Result<Option<nat>, string>,
                           observed: (Files, string, int, int) -> Result<Option<nat>, string>,
                           fitResidual: Files -> Result<real, string>)

  /** _reconcile_run: None when there is no publisher file. */
  function ReconcileRun(reader: Reader, files: Files, w: Bounds, topic: string, hz: real): Result<Option<DropStats>, string> {
    if hz <= 0.0 then Err("lidar_expected_hz must be > 0")
    else match reader.published(files, topic, w.simLo, w.simHi)
      case Err(why) => Err(why)
      case Ok(None) => Ok(None)
      case Ok(Some(published)) =>
        match reader.observed(files, topic, w.simLo, w.simHi)
        case Err(why) => Err(why)
        case Ok(None) => Err("topic not in observer.csv")
        case Ok(Some(observed)) =>
          Ok(Some(ReconcileDrops(ExpectedCount(w.simLo, w.simHi, hz), published, observed)))
  }

  function DropOf(reader: Reader, r: RunRecord, topic: string, hz: real): Result<Option<DropStats>, Note> {
    match r.window
    case Err(why) => Err(FailedWindow(r.name, why))
    case Ok(w) =>
      match ReconcileRun(reader, r.files, w, topic, hz)
      case Err(why) => Err(FailedRun(r.name, why))
      case Ok(d) => Ok(d)
  }

  /** The outcomes of a cell's records, sorted into three bins. */
  datatype Bins = Bins(drops: seq<DropStats>, notMeasurable: nat, errors: seq<Note>)

  function BinsOf(reader: Reader, records: seq<RunRecord>, topic: string, hz: real): (b: Bins)
    ensures |b.drops| + b.notMeasurable + |b.errors| == |records|
  {
    if records == [] then Bins([], 0, [])
    else
      var b := BinsOf(reader, records[..|records| - 1], topic, hz);
      match DropOf(reader, records[|records| - 1], topic, hz)
      case Err(e) => b.(errors := b.errors + [e])
      case Ok(None) => b.(notMeasurable := b.notMeasurable + 1)
      case Ok(Some(d)) => b.(drops := b.drops + [d])
  }

  /** A run is measurable exactly when it has a window, a publisher count and an observed
      count inside that window's simulation bounds; its rates are those of the counts. It is not measurable without a publisher file. */
  lemma MeasurableIff(reader: Reader, r: RunRecord, topic: string, hz: real, drop: DropStats)
    requires hz > 0.0
    ensures DropOf(reader, r, topic, hz) == Ok(Some(drop)) <==>
              exists published, observed ::
                && r.window.Ok?
                && reader.published(r.files, topic, r.window.value.simLo, r.window.value.simHi) == Ok(Some(published))
                && reader.observed(r.files, topic, r.window.value.simLo, r.window.value.simHi) == Ok(Some(observed))
                && drop == ReconcileDrops(ExpectedCount(r.window.value.simLo, r.window.value.simHi, hz), published, observed)
    ensures DropOf(reader, r, topic, hz) == Ok(None) <==>
              r.window.Ok? && reader.published(r.files, topic, r.window.value.simLo, r.window.value.simHi) == Ok(None)
  {
    hide ReconcileDrops, ExpectedCount;
  }

  /** Where one run goes: to the rates, to the runs not measurable, or to the errors. */
  lemma BinOfOne(reader: Reader, r: RunRecord, topic: string, hz: real)
    ensures BinsOf(reader, [r], topic, hz) ==
            match DropOf(reader, r, topic, hz)
            case Ok(Some(drop)) => Bins([drop], 0, [])
            case Ok(None) => Bins([], 1, [])
            case Err(e) => Bins([], 0, [e])
  {
    hide DropOf;
    assert [r][..0] == [] && BinsOf(reader, [], topic, hz) == Bins([], 0, []);
  }

  /** The bins of two stretches of runs follow each other. */
  lemma {:induction false} BinsFollow(reader: Reader, a: seq<RunRecord>, b: seq<RunRecord>, topic: string, hz: real)
    ensures var p, q, r := BinsOf(reader, a, topic, hz), BinsOf(reader, b, topic, hz), BinsOf(reader, a + b, topic, hz);
            r.drops == p.drops + q.drops && r.notMeasurable == p.notMeasurable + q.notMeasurable && r.errors == p.errors + q.errors
  {
    hide DropOf;
    if b == [] {
      assert a + b == a;
    } else {
      assert (a + b)[..|a + b| - 1] == a + b[..|b| - 1];
      BinsFollow(reader, a, b[..|b| - 1], topic, hz);
    }
  }

  function PublisherRates(drops: seq<DropStats>): seq<real> {
    seq(|drops|, i requires 0 <= i < |drops| => drops[i].publisherDrop)
  }

  function ZeroPublishedRuns(drops: seq<DropStats>): nat {
    if drops == [] then 0
    else ZeroPublishedRuns(drops[..|drops| - 1]) + if drops[|drops| - 1].observerLoss.None? then 1 else 0
  }

  /** The observer losses that are numbers. */
  function ObserverRates(drops: seq<DropStats>): (rates: seq<real>)
    ensures |rates| + ZeroPublishedRuns(drops) == |drops|
  {
    if drops == [] then []
    else
      var last := drops[|drops| - 1];
      ObserverRates(drops[..|drops| - 1]) + if last.observerLoss.Some? then [last.observerLoss.value] else []
  }

  function Highest(v: seq<real>): (m: real)
    requires v != []
    ensures m in v && forall i :: 0 <= i < |v| ==> v[i] <= m
  {
    var n := |v| - 1;
    assert v == v[..n] + [v[n]];
    if n == 0 then v[0] else var m := Highest(v[..n]); if v[n] > m then v[n] else m
  }

  datatype ReconciliationRow = ReconciliationRow(cell: string, arm: string, nMeasurable: nat, nNotMeasurable: nat,
                                                 nZeroPublished: nat, publisherMedian: Summary, publisherMax: Summary,
                                                 observerMedian: Summary, observerMax: Summary, notes: seq<Note>)
  {
    /** The n behind the observer pair. */
    function NObserver(): int {
      nMeasurable - nZeroPublished
    }
  }

  datatype LidarBinding = LidarBinding(topic: Option<string>, expectedHz: Option<real>)

  predicate Usable(lidar: LidarBinding) {
    lidar.topic.Some? && lidar.expectedHz.Some? && lidar.expectedHz.value > 0.0
  }

  function UnavailableRow(cell: string, arm: string, reason: string): ReconciliationRow {
    ReconciliationRow(cell, arm, 0, 0, 0, NoValue, NoValue, NoValue, NoValue, [Unavailable([reason])])
  }

  /** No rate exceeds the maximum, and some run attains it. */
  ghost predicate IsHighest(m: Summary, drops: seq<DropStats>, rate: DropStats -> Option<real>) {
    && m.Value?
    && (forall i :: 0 <= i < |drops| && rate(drops[i]).Some? ==> rate(drops[i]).value <= m.v)
    && exists i :: 0 <= i < |drops| && rate(drops[i]) == Some(m.v)
  }

  ghost function PublisherRate(): DropStats -> Option<real> {
    (d: DropStats) => Some(d.publisherDrop)
  }

  ghost function ObserverRate(): DropStats -> Option<real> {
    (d: DropStats) => d.observerLoss
  }

  ghost predicate AllSilent(drops: seq<DropStats>) {
    forall i :: 0 <= i < |drops| ==> drops[i].observerLoss.None?
  }

  /** What a row says about the runs it saw: neither maximum buries a lone loss, and
      the observer pair is NaN exactly when there were measurable runs and all of them
      published nothing. */
  ghost predicate Summarises(row: ReconciliationRow, b: Bins, median: seq<real> -> real) {
    && row.nMeasurable == |b.drops| && row.nNotMeasurable == b.notMeasurable
    && row.NObserver() == |ObserverRates(b.drops)|
    && (row.publisherMax == NoValue <==> b.drops == [])
    && (b.drops != [] ==> IsHighest(row.publisherMax, b.drops, PublisherRate()))
    && (row.observerMax == NoValue <==> b.drops == [])
    && (row.observerMax == NotANumber <==> b.drops != [] && AllSilent(b.drops))
    && (!AllSilent(b.drops) ==> IsHighest(row.observerMax, b.drops, ObserverRate()))
    && (b.drops != [] ==> row.publisherMedian == Value(median(PublisherRates(b.drops))))
    && (!AllSilent(b.drops) ==> row.observerMedian == Value(median(ObserverRates(b.drops))))
    && (row.observerMedian.Value? <==> row.observerMax.Value?) && (row.observerMedian.NotANumber? <==> row.observerMax.NotANumber?)
  }

  function ReconciliationNotes(records: seq<RunRecord>, inadmissible: nat, b: Bins, zero: nat): seq<Note> {
    If(records == [], NoRuns)
    + If(inadmissible > 0, RunsInadmissible("cell", inadmissible))
    + b.errors
    + If(b.notMeasurable > 0, NotMeasurable(b.notMeasurable))
    + If(zero > 0, ZeroPublished(zero))
  }

  function RowOfBins(cell: string, arm: string, records: seq<RunRecord>, b: Bins, inadmissible: nat,
                     median: seq<real> -> real): ReconciliationRow
  {
    var publisher, observer := PublisherRates(b.drops), ObserverRates(b.drops);
    var zero := ZeroPublishedRuns(b.drops);
    ReconciliationRow(
      cell, arm, |b.drops|, b.notMeasurable, zero,
      if publisher == [] then NoValue else Value(median(publisher)),
      if publisher == [] then NoValue else Value(Highest(publisher)),
      if b.drops == [] then NoValue else if observer == [] then NotANumber else Value(median(observer)),
      if b.drops == [] then NoValue else if observer == [] then NotANumber else Value(Highest(observer)),
      ReconciliationNotes(records, inadmissible, b, zero))
  }

  /** An observer loss is in the list of rates exactly when some run has it. */
  lemma {:induction false} ObserverRateIsListed(drops: seq<DropStats>, v: real)
    ensures v in ObserverRates(drops) <==> exists i :: 0 <= i < |drops| && drops[i].observerLoss == Some(v)
  {
    if drops != [] {
      var n := |drops| - 1;
      ObserverRateIsListed(drops[..n], v);
      if i :| 0 <= i < |drops| && drops[i].observerLoss == Some(v) {
        assert i < n ==> drops[..n][i] == drops[i];
      }
      if v in ObserverRates(drops[..n]) {
        var i :| 0 <= i < n && drops[..n][i].observerLoss == Some(v);
        assert drops[i].observerLoss == Some(v);
      }
    }
  }

  lemma HighestObserverLoss(drops: seq<DropStats>)
    ensures ObserverRates(drops) == [] <==> AllSilent(drops)
    ensures !AllSilent(drops) ==> IsHighest(Value(Highest(ObserverRates(drops))), drops, ObserverRate())
  {
    var rates := ObserverRates(drops);
    forall v ensures v in rates <==> exists i :: 0 <= i < |drops| && drops[i].observerLoss == Some(v) {
      ObserverRateIsListed(drops, v);
    }
    if rates != [] {
      assert rates[0] in rates;
      var m := Highest(rates);
      forall i | 0 <= i < |drops| && drops[i].observerLoss.Some? ensures drops[i].observerLoss.value <= m {
        var v := drops[i].observerLoss.value;
        assert v in rates;
        var k :| 0 <= k < |rates| && rates[k] == v;
      }
      assert m in rates;
    } else {
      forall i, v | 0 <= i < |drops| ensures drops[i].observerLoss != Some(v) {
      }
      forall i | 0 <= i < |drops| ensures drops[i].observerLoss.None? {
      }
    }
  }

  lemma HighestPublisherDrop(drops: seq<DropStats>)
    requires drops != []
    ensures IsHighest(Value(Highest(PublisherRates(drops))), drops, PublisherRate())
  {
    var rates := PublisherRates(drops);
    var m := Highest(rates);
    forall i | 0 <= i < |drops| ensures drops[i].publisherDrop <= m {
      assert rates[i] == drops[i].publisherDrop;
    }
    var j :| 0 <= j < |rates| && rates[j] == m;
    assert PublisherRate()(drops[j]) == Some(m);
  }

  lemma RowSummarises(cell: string, arm: string, records: seq<RunRecord>, b: Bins, inadmissible: nat, median: seq<real> -> real)
    ensures Summarises(RowOfBins(cell, arm, records, b, inadmissible, median), b, median)
  {
    hide IsHighest, Highest, ReconciliationNotes;
    HighestObserverLoss(b.drops);
    if b.drops != [] {
      HighestPublisherDrop(b.drops);
    }
  }

  function ReconciliationOf(cell: string, arm: string, lidar: LidarBinding, records: seq<RunRecord>,
                            inadmissible: nat, reader: Reader, median: seq<real> -> real): ReconciliationRow
  {
    if lidar.topic.None? || lidar.expectedHz.None? then UnavailableRow(cell, arm, "not registered")
    else if lidar.expectedHz.value <= 0.0 then UnavailableRow(cell, arm, "lidar_expected_hz must be > 0")
    else
      RowOfBins(cell, arm, records, BinsOf(reader, records, lidar.topic.value, lidar.expectedHz.value), inadmissible, median)
  }

  /** _cell_reconciliation_row, with the counting loop of the code. */
  method CellReconciliationRow(cell: string, arm: string, lidar: LidarBinding, records: seq<RunRecord>,
                               inadmissible: nat, reader: Reader, median: seq<real> -> real) returns (row: ReconciliationRow)
    ensures row == ReconciliationOf(cell, arm, lidar, records, inadmissible, reader, median)
    ensures Usable(lidar) ==>
              Summarises(row, BinsOf(reader, records, lidar.topic.value, lidar.expectedHz.value), median)
    ensures !Usable(lidar) ==> row.nMeasurable == 0 && row.publisherMax == NoValue && row.observerMax == NoValue
  {
    if lidar.topic.None? || lidar.expectedHz.None? { return UnavailableRow(cell, arm, "not registered"); }
    var topic, hz := lidar.topic.value, lidar.expectedHz.value;
    if hz <= 0.0 { return UnavailableRow(cell, arm, "lidar_expected_hz must be > 0"); }
    var drops: seq<DropStats>, notMeasurable: nat, errors: seq<Note> := [], 0, [];
    var i := 0;
    while i < |records|
      invariant 0 <= i <= |records|
      invariant Bins(drops, notMeasurable, errors) == BinsOf(reader, records[..i], topic, hz)
    {
      var r := records[i];
      assert records[..i + 1][..i] == records[..i];
      i := i + 1;
      if r.window.Err? {
        errors := errors + [FailedWindow(r.name, r.window.error)];
        continue;
      }
      match ReconcileRun(reader, r.files, r.window.value, topic, hz) {
        case Err(why) => errors := errors + [FailedRun(r.name, why)];
        case Ok(None) => notMeasurable := notMeasurable + 1;
        case Ok(Some(d)) => drops := drops + [d];
      }
    }
    assert records[..i] == records;
    row := RowOfBins(cell, arm, records, Bins(drops, notMeasurable, errors), inadmissible, median);
    RowSummarises(cell, arm, records, Bins(drops, notMeasurable, errors), inadmissible, median);
  }

  /** A lone high loss is never buried, on either axis. */
  lemma LoneLossIsNotBuried(row: ReconciliationRow, b: Bins, median: seq<real> -> real, i: nat)
    requires Summarises(row, b, median) && i < |b.drops|
    ensures row.publisherMax.Value? && b.drops[i].publisherDrop <= row.publisherMax.v
    ensures b.drops[i].observerLoss.Some? ==> row.observerMax.Value? && b.drops[i].observerLoss.value <= row.observerMax.v
  {
    assert PublisherRate()(b.drops[i]).value <= row.publisherMax.v;
    assert b.drops[i].observerLoss.Some? ==> ObserverRate()(b.drops[i]).value <= row.observerMax.v;
  }

  // ---- the table ----

  datatype Side = Available(x: Extractor) | Missing(reason: string)
  datatype Binding = NoBinder | Bound(a: Side, b: Side)
  datatype Margin = Margin(metric: string, margin: real, binding: Binding)

  const ARMS := ["static", "closed-loop", "ablation", "unpaced", "paced"]

  datatype Duel = Duel(cellA: string, cellB: string, margins: seq<Margin>, lidarA: LidarBinding, lidarB: LidarBinding,
                       minN: int, stats: Stats, reader: Reader)

  /** The arms both cells register, in the registered order. */
  function CommonArms(arms: seq<string>, a: set<string>, b: set<string>): (common: seq<string>)
    ensures forall arm :: arm in common <==> arm in arms && arm in a && arm in b
  {
    if arms == [] then []
    else
      var last := arms[|arms| - 1];
      CommonArms(arms[..|arms| - 1], a, b) + if last in a && last in b then [last] else []
  }

  ghost predicate Before(arms: seq<string>, first: string, second: string) {
    exists p, q :: 0 <= p < q < |arms| && arms[p] == first && arms[q] == second
  }

  /** Arms are reported in the registered order, each once. */
  lemma {:induction false} CommonArmsKeepOrder(arms: seq<string>, a: set<string>, b: set<string>)
    requires DistinctArms(arms)
    ensures DistinctArms(CommonArms(arms, a, b))
    ensures forall i, j :: 0 <= i < j < |CommonArms(arms, a, b)| ==>
              Before(arms, CommonArms(arms, a, b)[i], CommonArms(arms, a, b)[j])
  {
    if arms != [] {
      var n := |arms| - 1;
      var before := arms[..n];
      CommonArmsKeepOrder(before, a, b);
      var common := CommonArms(arms, a, b);
      forall i, j | 0 <= i < j < |common| ensures Before(arms, common[i], common[j]) && common[i] != common[j] {
        assert common[i] in CommonArms(before, a, b) && common[i] in before;
        var p :| 0 <= p < n && before[p] == common[i];
        if j < |CommonArms(before, a, b)| {
          assert Before(before, common[i], common[j]);
          var r, q :| 0 <= r < q < n && before[r] == common[i] && before[q] == common[j];
          assert arms[r] == common[i] && arms[q] == common[j];
        } else {
          assert arms[p] == common[i] && arms[n] == common[j];
        }
      }
    }
  }

  function FitResiduals(records: seq<RunRecord>, fit: Files -> Result<real, string>): (seq<real>, seq<Note>) {
    if records == [] then ([], [])
    else
      var r := records[|records| - 1];
      var rest := FitResiduals(records[..|records| - 1], fit);
      match fit(r.files)
      case Ok(v) => (rest.0 + [v], rest.1)
      case Err(why) => (rest.0, rest.1 + [FailedRun(r.name, why)])
  }

  /** _attach_fit_residual_note: whatever it finds, only the notes grow. */
  function AttachFitResidual(row: VerdictRow, a: seq<RunRecord>, b: seq<RunRecord>, d: Duel): (noted: VerdictRow)
    ensures noted == row.(notes := noted.notes) && row.notes <= noted.notes
  {
    var fitA, fitB := FitResiduals(a, d.reader.fitResidual), FitResiduals(b, d.reader.fitResidual);
    row.(notes := row.notes + (fitA.1 + fitB.1)
                  + if fitA.0 != [] && fitB.0 != [] then [FitResidual(d.stats.median(fitA.0), d.stats.median(fitB.0))] else [])
  }

  function WalkNotes(errors: seq<WalkError>): seq<Note> {
    seq(|errors|, i requires 0 <= i < |errors| => Walk(errors[i]))
  }

  function AdmittedRuns(tree: seq<Entry>, d: Duel, arm: string): seq<RunRecord> {
    Records(tree, DuelQuery(arm, d.cellA, d.cellB), d.reader.resolve)
  }

  function Reasons(d: Duel, m: Margin): seq<string>
    requires m.binding.Bound?
  {
    (if m.binding.a.Missing? then [d.cellA + ": " + m.binding.a.reason] else [])
    + (if m.binding.b.Missing? then [d.cellB + ": " + m.binding.b.reason] else [])
  }

  /** What one arm's walks of both cells brought back. */
  datatype Walks = Walks(a: seq<RunRecord>, b: seq<RunRecord>, skipped: Skipped,
                         errorsA: seq<WalkError>, errorsB: seq<WalkError>)

  function WalksOf(d: Duel, arm: string, treeA: seq<Entry>, treeB: seq<Entry>): Walks {
    var q := DuelQuery(arm, d.cellA, d.cellB);
    Walks(AdmittedRuns(treeA, d, arm), AdmittedRuns(treeB, d, arm),
          Skipped(Tally(e => Excluded(e, q), treeA), Tally(e => Excluded(e, q), treeB),
                  Tally(e => Inadmissible(e, q), treeA), Tally(e => Inadmissible(e, q), treeB)),
          WalkErrors(treeA), WalkErrors(treeB))
  }

  function RowOfMetric(d: Duel, m: Margin, arm: string, w: Walks): VerdictRow
    requires m.binding.Bound?
  {
    if m.binding.a.Missing? || m.binding.b.Missing? then
      VerdictRow(m.metric, 0, 0, None, None, m.margin, InsufficientData, [Unavailable(Reasons(d, m))], arm)
    else
      var a, b := m.binding.a.x, m.binding.b.x;
      var row := VerdictRowOf(m.metric, Values(w.a, a), Values(w.b, b), m.margin, d.stats, d.minN, w.skipped, arm);
      var errors := WalkNotes(w.errorsA) + Failures(w.a, a) + WalkNotes(w.errorsB) + Failures(w.b, b);
      var noted := row.(notes := row.notes + errors);
      if m.metric == "one_hop_wall_ms" then AttachFitResidual(noted, w.a, w.b, d) else noted
  }

  method MetricRow(d: Duel, m: Margin, arm: string, w: Walks) returns (row: VerdictRow)
    requires m.binding.Bound?
    ensures row == RowOfMetric(d, m, arm, w)
  {
    if m.binding.a.Missing? || m.binding.b.Missing? {
      return VerdictRow(m.metric, 0, 0, None, None, m.margin, InsufficientData, [Unavailable(Reasons(d, m))], arm);
    }
    var valuesA, errorsA := ApplyExtractor(w.a, m.binding.a.x);
    var valuesB, errorsB := ApplyExtractor(w.b, m.binding.b.x);
    row := VerdictRowOf(m.metric, valuesA, valuesB, m.margin, d.stats, d.minN, w.skipped, arm);
    row := row.(notes := row.notes + (WalkNotes(w.errorsA) + errorsA + WalkNotes(w.errorsB) + errorsB));
    if m.metric == "one_hop_wall_ms" {
      row := AttachFitResidual(row, w.a, w.b, d);
    }
  }

  /** The rows of one arm, in the order of the margins. */
  function ArmRows(d: Duel, margins: seq<Margin>, arm: string, w: Walks): seq<VerdictRow> {
    if margins == [] then []
    else
      var last := margins[|margins| - 1];
      ArmRows(d, margins[..|margins| - 1], arm, w) + if last.binding.Bound? then [RowOfMetric(d, last, arm, w)] else []
  }

  // ---- what the rows of a table are about ----

  /** A row of one metric and arm: cell A's values are on side a, cell B's on side b,
      and a positive delta is an excess of A's median. An unbound side leaves no value. */
  ghost predicate RowOfDuel(row: VerdictRow, d: Duel, m: Margin, arm: string, a: seq<RunRecord>, b: seq<RunRecord>)
    requires m.binding.Bound?
  {
    && row.metric == m.metric && row.arm == arm && row.margin == m.margin
    && if m.binding.a.Available? && m.binding.b.Available? then
         var va, vb := Values(a, m.binding.a.x), Values(b, m.binding.b.x);
         && row.nA == |va| && row.nB == |vb|
         && (row.verdict == InsufficientData <==> |va| < 3 || |vb| < 3)
         && (row.delta.Some? <==> |va| >= 3 && |vb| >= 3) && (row.ci.Some? <==> row.delta.Some?)
         && (row.delta.Some? ==> row.delta.value == d.stats.median(va) - d.stats.median(vb))
         && (row.ci.Some? ==> row.ci.value == d.stats.bootstrap(va, vb) && Decided(row.verdict, row.ci.value, m.margin))
       else
         row.nA == 0 && row.nB == 0 && row.delta.None? && row.ci.None? && row.verdict == InsufficientData
  }

  lemma RowIsOfDuel(d: Duel, m: Margin, arm: string, w: Walks)
    requires m.binding.Bound?
    ensures RowOfDuel(RowOfMetric(d, m, arm, w), d, m, arm, w.a, w.b)
  {
    hide Values, Failures, WalkNotes, RowNotes, EquivalenceDecision, Decided;
  }

  ghost predicate Labelled(row: VerdictRow, metric: string, arm: string) {
    row.metric == metric && row.arm == arm
  }

  /** Row i, and no other, is about the metric and arm. */
  ghost predicate OnlyRow(rows: seq<VerdictRow>, i: nat, metric: string, arm: string) {
    && i < |rows| && Labelled(rows[i], metric, arm)
    && forall j :: 0 <= j < |rows| && Labelled(rows[j], metric, arm) ==> j == i
  }

  /** Exactly one row is about the metric and arm, and it scores these runs. */
  ghost predicate ScoredOnce(rows: seq<VerdictRow>, d: Duel, m: Margin, arm: string, a: seq<RunRecord>, b: seq<RunRecord>)
    requires m.binding.Bound?
  {
    exists i: nat :: OnlyRow(rows, i, m.metric, arm) && RowOfDuel(rows[i], d, m, arm, a, b)
  }

  /** The margins are a dictionary: one entry per metric. */
  ghost predicate DistinctMetrics(margins: seq<Margin>) {
    forall i, j :: 0 <= i < j < |margins| ==> margins[i].metric != margins[j].metric
  }

  ghost predicate DistinctArms(arms: seq<string>) {
    forall i, j :: 0 <= i < j < |arms| ==> arms[i] != arms[j]
  }

  ghost predicate NoneLabelled(rows: seq<VerdictRow>, metric: string, arm: string) {
    forall j :: 0 <= j < |rows| ==> !Labelled(rows[j], metric, arm)
  }

  lemma ScoredInFirst(first: seq<VerdictRow>, second: seq<VerdictRow>, d: Duel, m: Margin, arm: string,
                      a: seq<RunRecord>, b: seq<RunRecord>)
    requires m.binding.Bound? && ScoredOnce(first, d, m, arm, a, b) && NoneLabelled(second, m.metric, arm)
    ensures ScoredOnce(first + second, d, m, arm, a, b)
  {
    hide RowOfDuel;
    var i: nat :| OnlyRow(first, i, m.metric, arm) && RowOfDuel(first[i], d, m, arm, a, b);
    var rows := first + second;
    assert forall j :: |first| <= j < |rows| ==> rows[j] == second[j - |first|];
    assert OnlyRow(rows, i, m.metric, arm);
  }

  lemma ScoredInSecond(first: seq<VerdictRow>, second: seq<VerdictRow>, d: Duel, m: Margin, arm: string,
                       a: seq<RunRecord>, b: seq<RunRecord>)
    requires m.binding.Bound? && ScoredOnce(second, d, m, arm, a, b) && NoneLabelled(first, m.metric, arm)
    ensures ScoredOnce(first + second, d, m, arm, a, b)
  {
    hide RowOfDuel;
    var i: nat :| OnlyRow(second, i, m.metric, arm) && RowOfDuel(second[i], d, m, arm, a, b);
    var rows := first + second;
    forall j | 0 <= j < |rows| && Labelled(rows[j], m.metric, arm) ensures j == |first| + i {
      assert j >= |first| ==> rows[j] == second[j - |first|];
    }
    assert OnlyRow(rows, |first| + i, m.metric, arm);
  }

  lemma {:induction false} ArmRowsAreLabelled(d: Duel, margins: seq<Margin>, arm: string, w: Walks, metric: string, other: string)
    requires arm != other || forall m :: m in margins ==> m.metric != metric
    ensures NoneLabelled(ArmRows(d, margins, arm, w), metric, other)
  {
    if margins != [] {
      var last := margins[|margins| - 1];
      ArmRowsAreLabelled(d, margins[..|margins| - 1], arm, w, metric, other);
      if last.binding.Bound? {
        RowIsOfDuel(d, last, arm, w);
        hide RowOfMetric;
      }
    }
  }

  lemma {:induction false} ArmScoresOnce(d: Duel, margins: seq<Margin>, arm: string, w: Walks, k: nat)
    requires DistinctMetrics(margins) && k < |margins| && margins[k].binding.Bound?
    ensures ScoredOnce(ArmRows(d, margins, arm, w), d, margins[k], arm, w.a, w.b)
  {
    hide RowOfMetric, RowOfDuel;
    var n, m := |margins| - 1, margins[k];
    var before, last := margins[..n], margins[n];
    var first := ArmRows(d, before, arm, w);
    var second := if last.binding.Bound? then [RowOfMetric(d, last, arm, w)] else [];
    assert ArmRows(d, margins, arm, w) == first + second;
    if k < n {
      ArmScoresOnce(d, before, arm, w, k);
      if last.binding.Bound? {
        RowIsLabelled(d, last, arm, w);
      }
      ScoredInFirst(first, second, d, m, arm, w.a, w.b);
    } else {
      RowIsOfDuel(d, last, arm, w);
      RowIsLabelled(d, last, arm, w);
      ArmRowsAreLabelled(d, before, arm, w, m.metric, arm);
      assert OnlyRow(second, 0, m.metric, arm);
      ScoredInSecond(first, second, d, m, arm, w.a, w.b);
    }
  }

  lemma RowIsLabelled(d: Duel, m: Margin, arm: string, w: Walks)
    requires m.binding.Bound?
    ensures Labelled(RowOfMetric(d, m, arm, w), m.metric, arm)
  {
    RowIsOfDuel(d, m, arm, w);
  }

  predicate Reconciles(d: Duel) {
    exists i :: 0 <= i < |d.margins| && d.margins[i].metric == "achieved_rate_ratio"
  }

  function ArmReconciliation(d: Duel, arm: string, w: Walks): seq<ReconciliationRow> {
    if !Reconciles(d) then []
    else
      [ReconciliationOf(d.cellA, arm, d.lidarA, w.a, w.skipped.inadmissibleA, d.reader, d.stats.median),
       ReconciliationOf(d.cellB, arm, d.lidarB, w.b, w.skipped.inadmissibleB, d.reader, d.stats.median)]
  }

  datatype Table = Table(rows: seq<VerdictRow>, reconciliation: seq<ReconciliationRow>)

  function TableOf(d: Duel, arms: seq<string>, treeA: seq<Entry>, treeB: seq<Entry>): Table {
    if arms == [] then Table([], [])
    else
      var t := TableOf(d, arms[..|arms| - 1], treeA, treeB);
      var arm := arms[|arms| - 1];
      var w := WalksOf(d, arm, treeA, treeB);
      Table(t.rows + ArmRows(d, d.margins, arm, w), t.reconciliation + ArmReconciliation(d, arm, w))
  }

  lemma {:induction false} TableIsLabelled(d: Duel, arms: seq<string>, treeA: seq<Entry>, treeB: seq<Entry>, metric: string, arm: string)
    requires arm !in arms
    ensures NoneLabelled(TableOf(d, arms, treeA, treeB).rows, metric, arm)
  {
    if arms != [] {
      var before, last := arms[..|arms| - 1], arms[|arms| - 1];
      TableIsLabelled(d, before, treeA, treeB, metric, arm);
      ArmRowsAreLabelled(d, d.margins, last, WalksOf(d, last, treeA, treeB), metric, arm);
      hide ArmRows, WalksOf;
    }
  }

  lemma {:induction false} TableScoresOnce(d: Duel, arms: seq<string>, treeA: seq<Entry>, treeB: seq<Entry>, i: nat, k: nat)
    requires DistinctArms(arms) && DistinctMetrics(d.margins)
    requires i < |arms| && k < |d.margins| && d.margins[k].binding.Bound?
    ensures ScoredOnce(TableOf(d, arms, treeA, treeB).rows, d, d.margins[k], arms[i],
                       AdmittedRuns(treeA, d, arms[i]), AdmittedRuns(treeB, d, arms[i]))
  {
    var n := |arms| - 1;
    var before, last := arms[..n], arms[n];
    var m, w := d.margins[k], WalksOf(d, last, treeA, treeB);
    var first, second := TableOf(d, before, treeA, treeB).rows, ArmRows(d, d.margins, last, w);
    assert TableOf(d, arms, treeA, treeB).rows == first + second;
    var a, b := AdmittedRuns(treeA, d, arms[i]), AdmittedRuns(treeB, d, arms[i]);
    if i < n {
      TableScoresOnce(d, before, treeA, treeB, i, k);
      ArmRowsAreLabelled(d, d.margins, last, w, m.metric, arms[i]);
      hide TableOf, ArmRows, ScoredOnce, NoneLabelled;
      ScoredInFirst(first, second, d, m, arms[i], a, b);
    } else {
      ArmScoresOnce(d, d.margins, last, w, k);
      TableIsLabelled(d, before, treeA, treeB, m.metric, last);
      hide TableOf, ArmRows, ScoredOnce, NoneLabelled;
      ScoredInSecond(first, second, d, m, last, a, b);
    }
  }

  /** Every row is about an arm of the table and a bound margin. */
  ghost predicate RowsAreOf(rows: seq<VerdictRow>, margins: seq<Margin>, arms: seq<string>) {
    forall j :: 0 <= j < |rows| ==> rows[j].arm in arms && BoundIn(margins, rows[j].metric)
  }

  ghost predicate BoundIn(margins: seq<Margin>, metric: string) {
    exists m :: m in margins && m.binding.Bound? && m.metric == metric
  }

  lemma {:induction false} ArmRowsAreOf(d: Duel, margins: seq<Margin>, arm: string, w: Walks)
    ensures RowsAreOf(ArmRows(d, margins, arm, w), margins, [arm])
  {
    if margins != [] {
      var before, last := margins[..|margins| - 1], margins[|margins| - 1];
      ArmRowsAreOf(d, before, arm, w);
      if last.binding.Bound? { RowIsLabelled(d, last, arm, w); }
      hide RowOfMetric;
      forall metric | BoundIn(before, metric) ensures BoundIn(margins, metric) {
        var m :| m in before && m.binding.Bound? && m.metric == metric;
        assert m in margins;
      }
      assert last.binding.Bound? ==> last in margins && BoundIn(margins, last.metric);
    }
  }

  lemma {:induction false} TableRowsAreOf(d: Duel, arms: seq<string>, treeA: seq<Entry>, treeB: seq<Entry>)
    ensures RowsAreOf(TableOf(d, arms, treeA, treeB).rows, d.margins, arms)
  {
    if arms != [] {
      var before, last := arms[..|arms| - 1], arms[|arms| - 1];
      TableRowsAreOf(d, before, treeA, treeB);
      ArmRowsAreOf(d, d.margins, last, WalksOf(d, last, treeA, treeB));
      hide ArmRows, WalksOf;
    }
  }

  /** One row stands before another: its arm does, or its margin does within the arm. */
  ghost predicate Precedes(margins: seq<Margin>, arms: seq<string>, row: VerdictRow, next: VerdictRow) {
    Before(arms, row.arm, next.arm) || (row.arm == next.arm && EarlierMargin(margins, row.metric, next.metric))
  }

  ghost predicate EarlierMargin(margins: seq<Margin>, first: string, second: string) {
    exists p, q :: 0 <= p < q < |margins| && margins[p].metric == first && margins[q].metric == second
  }

  lemma {:induction false} ArmRowsKeepOrder(d: Duel, margins: seq<Margin>, arm: string, w: Walks, j: nat, k: nat)
    requires j < k < |ArmRows(d, margins, arm, w)|
    ensures var rows := ArmRows(d, margins, arm, w); EarlierMargin(margins, rows[j].metric, rows[k].metric)
  {
    var n := |margins| - 1;
    var before, last := margins[..n], margins[n];
    var rows, first := ArmRows(d, margins, arm, w), ArmRows(d, before, arm, w);
    if k < |first| {
      ArmRowsKeepOrder(d, before, arm, w, j, k);
      var p, q :| 0 <= p < q < n && before[p].metric == first[j].metric && before[q].metric == first[k].metric;
      assert margins[p].metric == rows[j].metric && margins[q].metric == rows[k].metric;
    } else {
      ArmRowsAreOf(d, before, arm, w);
      RowIsLabelled(d, last, arm, w);
      assert BoundIn(before, first[j].metric);
      var m :| m in before && m.metric == rows[j].metric;
      var p :| 0 <= p < n && before[p] == m;
      assert margins[p].metric == rows[j].metric && margins[n].metric == rows[k].metric;
    }
  }

  lemma AppendKeepsOrder(margins: seq<Margin>, before: seq<string>, last: string, first: seq<VerdictRow>, second: seq<VerdictRow>,
                         j: nat, k: nat)
    requires RowsAreOf(first, margins, before) && RowsAreOf(second, margins, [last]) && j < k < |first + second|
    requires k < |first| ==> Precedes(margins, before, first[j], first[k])
    requires j >= |first| ==> EarlierMargin(margins, second[j - |first|].metric, second[k - |first|].metric)
    ensures Precedes(margins, before + [last], (first + second)[j], (first + second)[k])
  {
    hide EarlierMargin, BoundIn;
    var n, rows, arms := |before|, first + second, before + [last];
    if k < |first| {
      if Before(before, first[j].arm, first[k].arm) {
        var p, q :| 0 <= p < q < n && before[p] == first[j].arm && before[q] == first[k].arm;
        assert arms[p] == rows[j].arm && arms[q] == rows[k].arm;
      }
    } else if j < |first| {
      var p :| 0 <= p < n && before[p] == first[j].arm;
      assert second[k - |first|].arm in [last];
      assert arms[p] == rows[j].arm && arms[n] == rows[k].arm;
    } else {
      assert second[j - |first|].arm in [last] && second[k - |first|].arm in [last];
    }
  }

  /** The rows follow the arms, and within an arm the margins. */
  lemma {:induction false} TableKeepsOrder(d: Duel, arms: seq<string>, treeA: seq<Entry>, treeB: seq<Entry>, j: nat, k: nat)
    requires j < k < |TableOf(d, arms, treeA, treeB).rows|
    ensures var rows := TableOf(d, arms, treeA, treeB).rows; Precedes(d.margins, arms, rows[j], rows[k])
  {
    hide ArmRows, WalksOf, Precedes, EarlierMargin, RowsAreOf;
    var n := |arms| - 1;
    var before, last := arms[..n], arms[n];
    assert arms == before + [last];
    var w := WalksOf(d, last, treeA, treeB);
    var first, second := TableOf(d, before, treeA, treeB).rows, ArmRows(d, d.margins, last, w);
    assert TableOf(d, arms, treeA, treeB).rows == first + second;
    TableRowsAreOf(d, before, treeA, treeB);
    ArmRowsAreOf(d, d.margins, last, w);
    if k < |first| { TableKeepsOrder(d, before, treeA, treeB, j, k); }
    if j >= |first| { ArmRowsKeepOrder(d, d.margins, last, w, j - |first|, k - |first|); }
    AppendKeepsOrder(d.margins, before, last, first, second, j, k);
  }

  /** A reconciliation row of one cell and arm, over that cell's runs. */
  ghost predicate RowOfCell(row: ReconciliationRow, d: Duel, cell: string, arm: string, lidar: LidarBinding, runs: seq<RunRecord>) {
    && row.cell == cell && row.arm == arm
    && if Usable(lidar) then
         Summarises(row, BinsOf(d.reader, runs, lidar.topic.value, lidar.expectedHz.value), d.stats.median)
       else
         row.nMeasurable == 0 && row.publisherMax == NoValue && row.observerMax == NoValue
  }

  /** With achieved_rate_ratio among the margins there are two rows per arm, in the order
      of the arms, cell A before cell B; otherwise there is none. */
  ghost predicate ReconciledInOrder(rows: seq<ReconciliationRow>, d: Duel, arms: seq<string>, treeA: seq<Entry>, treeB: seq<Entry>) {
    if exists m :: m in d.margins && m.metric == "achieved_rate_ratio" then
      && |rows| == 2 * |arms|
      && forall i :: 0 <= i < |arms| ==>
           && RowOfCell(rows[2 * i], d, d.cellA, arms[i], d.lidarA, AdmittedRuns(treeA, d, arms[i]))
           && RowOfCell(rows[2 * i + 1], d, d.cellB, arms[i], d.lidarB, AdmittedRuns(treeB, d, arms[i]))
    else rows == []
  }

  lemma RowIsOfCell(d: Duel, cell: string, arm: string, lidar: LidarBinding, runs: seq<RunRecord>, inadmissible: nat)
    ensures RowOfCell(ReconciliationOf(cell, arm, lidar, runs, inadmissible, d.reader, d.stats.median), d, cell, arm, lidar, runs)
  {
    hide Summarises, BinsOf;
    if Usable(lidar) {
      RowSummarises(cell, arm, runs, BinsOf(d.reader, runs, lidar.topic.value, lidar.expectedHz.value), inadmissible, d.stats.median);
    }
  }

  lemma ArmReconciliationIsOfCells(d: Duel, arm: string, treeA: seq<Entry>, treeB: seq<Entry>)
    requires Reconciles(d)
    ensures var rows := ArmReconciliation(d, arm, WalksOf(d, arm, treeA, treeB));
            && |rows| == 2
            && RowOfCell(rows[0], d, d.cellA, arm, d.lidarA, AdmittedRuns(treeA, d, arm))
            && RowOfCell(rows[1], d, d.cellB, arm, d.lidarB, AdmittedRuns(treeB, d, arm))
  {
    hide RowOfCell, ReconciliationOf, AdmittedRuns;
    var w := WalksOf(d, arm, treeA, treeB);
    RowIsOfCell(d, d.cellA, arm, d.lidarA, w.a, w.skipped.inadmissibleA);
    RowIsOfCell(d, d.cellB, arm, d.lidarB, w.b, w.skipped.inadmissibleB);
  }

  lemma OneMoreArm(rows: seq<ReconciliationRow>, pair: seq<ReconciliationRow>, d: Duel, arms: seq<string>, arm: string,
                   treeA: seq<Entry>, treeB: seq<Entry>)
    requires Reconciles(d) && ReconciledInOrder(rows, d, arms, treeA, treeB) && |pair| == 2
    requires RowOfCell(pair[0], d, d.cellA, arm, d.lidarA, AdmittedRuns(treeA, d, arm))
    requires RowOfCell(pair[1], d, d.cellB, arm, d.lidarB, AdmittedRuns(treeB, d, arm))
    ensures ReconciledInOrder(rows + pair, d, arms + [arm], treeA, treeB)
  {
    hide RowOfCell, AdmittedRuns;
    var more, longer := rows + pair, arms + [arm];
    forall i | 0 <= i < |longer|
      ensures RowOfCell(more[2 * i], d, d.cellA, longer[i], d.lidarA, AdmittedRuns(treeA, d, longer[i]))
      ensures RowOfCell(more[2 * i + 1], d, d.cellB, longer[i], d.lidarB, AdmittedRuns(treeB, d, longer[i]))
    {
      if i < |arms| {
        assert longer[i] == arms[i] && more[2 * i] == rows[2 * i] && more[2 * i + 1] == rows[2 * i + 1];
      }
    }
  }

  lemma {:induction false} TableReconcilesInOrder(d: Duel, arms: seq<string>, treeA: seq<Entry>, treeB: seq<Entry>)
    ensures ReconciledInOrder(TableOf(d, arms, treeA, treeB).reconciliation, d, arms, treeA, treeB)
  {
    hide RowOfCell, ReconciliationOf, AdmittedRuns, ArmRows, WalksOf;
    if arms != [] {
      var before, arm := arms[..|arms| - 1], arms[|arms| - 1];
      var rows := TableOf(d, before, treeA, treeB).reconciliation;
      var pair := ArmReconciliation(d, arm, WalksOf(d, arm, treeA, treeB));
      assert TableOf(d, arms, treeA, treeB).reconciliation == rows + pair;
      assert arms == before + [arm];
      TableReconcilesInOrder(d, before, treeA, treeB);
      if Reconciles(d) {
        ArmReconciliationIsOfCells(d, arm, treeA, treeB);
        hide TableOf, ArmReconciliation, ReconciledInOrder;
        OneMoreArm(rows, pair, d, before, arm, treeA, treeB);
      }
    }
  }

  // ---- what the notes say was left out ----

  lemma {:induction false} FailuresAreOfRuns(records: seq<RunRecord>, x: Extractor)
    ensures forall n :: n in Failures(records, x) ==> n.FailedWindow? || n.FailedRun?
  {
    if records != [] {
      FailuresAreOfRuns(records[..|records| - 1], x);
    }
  }

  lemma {:induction false} FitNotesAreOfRuns(records: seq<RunRecord>, fit: Files -> Result<real, string>)
    ensures forall n :: n in FitResiduals(records, fit).1 ==> n.FailedRun?
  {
    if records != [] {
      FitNotesAreOfRuns(records[..|records| - 1], fit);
    }
  }

  ghost predicate IsSkip(n: Note) {
    n.RunsExcluded? || n.RunsInadmissible?
  }

  lemma FitAddsOnlyFitNotes(row: VerdictRow, a: seq<RunRecord>, b: seq<RunRecord>, d: Duel, n: Note)
    requires !n.FailedRun? && !n.FitResidual?
    ensures n in AttachFitResidual(row, a, b, d).notes <==> n in row.notes
  {
    FitNotesAreOfRuns(a, d.reader.fitResidual);
    FitNotesAreOfRuns(b, d.reader.fitResidual);
    hide FitResiduals;
  }

  lemma ErrorsAreNoSkip(d: Duel, m: Margin, w: Walks, n: Note)
    requires m.binding.Bound? && m.binding.a.Available? && m.binding.b.Available? && IsSkip(n)
    ensures n !in WalkNotes(w.errorsA) + Failures(w.a, m.binding.a.x) + WalkNotes(w.errorsB) + Failures(w.b, m.binding.b.x)
  {
    FailuresAreOfRuns(w.a, m.binding.a.x);
    FailuresAreOfRuns(w.b, m.binding.b.x);
    hide Failures;
  }

  lemma RowNotesSkips(d: Duel, m: Margin, arm: string, w: Walks, n: Note)
    requires m.binding.Bound? && m.binding.a.Available? && m.binding.b.Available? && IsSkip(n)
    ensures n in RowOfMetric(d, m, arm, w).notes
       <==> n in RowNotes(Values(w.a, m.binding.a.x), Values(w.b, m.binding.b.x), d.minN, w.skipped)
  {
    hide RowNotes, Values, Failures, WalkNotes, AttachFitResidual, EquivalenceDecision, Decided;
    ErrorsAreNoSkip(d, m, w, n);
    var a, b := m.binding.a.x, m.binding.b.x;
    var row := VerdictRowOf(m.metric, Values(w.a, a), Values(w.b, b), m.margin, d.stats, d.minN, w.skipped, arm);
    var errors := WalkNotes(w.errorsA) + Failures(w.a, a) + WalkNotes(w.errorsB) + Failures(w.b, b);
    assert n in row.notes + errors <==> n in row.notes;
    FitAddsOnlyFitNotes(row.(notes := row.notes + errors), w.a, w.b, d, n);
  }

  lemma InIf(n: Note, b: bool, m: Note)
    ensures n in If(b, m) <==> b && n == m
  {
  }

  lemma InAppend(n: Note, a: seq<Note>, b: seq<Note>)
    ensures n in a + b <==> n in a || n in b
  {
  }

  /** What a row's own notes say. */
  lemma NotedIff(n: Note, a: seq<real>, b: seq<real>, minN: int, skipped: Skipped)
    ensures n in RowNotes(a, b, minN, skipped) <==>
              || (skipped.excludedA > 0 && n == RunsExcluded("A", skipped.excludedA))
              || (skipped.excludedB > 0 && n == RunsExcluded("B", skipped.excludedB))
              || (skipped.inadmissibleA > 0 && n == RunsInadmissible("A", skipped.inadmissibleA))
              || (skipped.inadmissibleB > 0 && n == RunsInadmissible("B", skipped.inadmissibleB))
              || (|a| < minN && n == UnderN("a", |a|, minN))
              || (|b| < minN && n == UnderN("b", |b|, minN))
              || ((|a| < 3 || |b| < 3) && n == TooFewForInterval(|a|, |b|))
  {
    hide If;
    InIf(n, skipped.excludedA > 0, RunsExcluded("A", skipped.excludedA));
    InIf(n, skipped.excludedB > 0, RunsExcluded("B", skipped.excludedB));
    InIf(n, skipped.inadmissibleA > 0, RunsInadmissible("A", skipped.inadmissibleA));
    InIf(n, skipped.inadmissibleB > 0, RunsInadmissible("B", skipped.inadmissibleB));
    InIf(n, |a| < minN, UnderN("a", |a|, minN));
    InIf(n, |b| < minN, UnderN("b", |b|, minN));
    InIf(n, |a| < 3 || |b| < 3, TooFewForInterval(|a|, |b|));
  }

  /** A row names, side by side, how many runs of each cell were excluded and how many
      were not admissible, and says nothing of a side that skipped none. */
  lemma SkippedRunsAreNamed(d: Duel, m: Margin, arm: string, treeA: seq<Entry>, treeB: seq<Entry>, side: string, n: nat)
    requires m.binding.Bound? && m.binding.a.Available? && m.binding.b.Available?
    ensures var notes := RowOfMetric(d, m, arm, WalksOf(d, arm, treeA, treeB)).notes;
            var q := DuelQuery(arm, d.cellA, d.cellB);
            && (RunsExcluded(side, n) in notes <==>
                  n > 0 && ((side == "A" && n == Tally(e => Excluded(e, q), treeA)) || (side == "B" && n == Tally(e => Excluded(e, q), treeB))))
            && (RunsInadmissible(side, n) in notes <==>
                  n > 0 && ((side == "A" && n == Tally(e => Inadmissible(e, q), treeA))
                            || (side == "B" && n == Tally(e => Inadmissible(e, q), treeB))))
  {
    hide RowOfMetric, Values, AdmittedRuns, WalkErrors, Tally, RowNotes;
    var w := WalksOf(d, arm, treeA, treeB);
    RowNotesSkips(d, m, arm, w, RunsExcluded(side, n));
    RowNotesSkips(d, m, arm, w, RunsInadmissible(side, n));
    NotedIff(RunsExcluded(side, n), Values(w.a, m.binding.a.x), Values(w.b, m.binding.b.x), d.minN, w.skipped);
    NotedIff(RunsInadmissible(side, n), Values(w.a, m.binding.a.x), Values(w.b, m.binding.b.x), d.minN, w.skipped);
  }

  /** A row lists exactly the unreadable manifests of the two trees. */
  lemma WalkErrorsAreListed(d: Duel, m: Margin, arm: string, treeA: seq<Entry>, treeB: seq<Entry>, e: WalkError)
    requires m.binding.Bound? && m.binding.a.Available? && m.binding.b.Available?
    ensures Walk(e) in RowOfMetric(d, m, arm, WalksOf(d, arm, treeA, treeB)).notes
       <==> e in WalkErrors(treeA) || e in WalkErrors(treeB)
  {
    var w := WalksOf(d, arm, treeA, treeB);
    var a, b := m.binding.a.x, m.binding.b.x;
    ErrorsHoldWalks(w, a, b, e);
    hide Values, Failures, WalkNotes, AttachFitResidual, EquivalenceDecision, Decided, AdmittedRuns, WalkErrors, Tally, RowNotes;
    NotedIff(Walk(e), Values(w.a, a), Values(w.b, b), d.minN, w.skipped);
    var row := VerdictRowOf(m.metric, Values(w.a, a), Values(w.b, b), m.margin, d.stats, d.minN, w.skipped, arm);
    var errors := WalkNotes(w.errorsA) + Failures(w.a, a) + WalkNotes(w.errorsB) + Failures(w.b, b);
    InAppend(Walk(e), row.notes, errors);
    FitAddsOnlyFitNotes(row.(notes := row.notes + errors), w.a, w.b, d, Walk(e));
  }

  lemma ErrorsHoldWalks(w: Walks, a: Extractor, b: Extractor, e: WalkError)
    ensures Walk(e) in WalkNotes(w.errorsA) + Failures(w.a, a) + WalkNotes(w.errorsB) + Failures(w.b, b)
       <==> e in w.errorsA || e in w.errorsB
  {
    FailuresAreOfRuns(w.a, a);
    FailuresAreOfRuns(w.b, b);
    ListedAsNotes(w.errorsA, e);
    ListedAsNotes(w.errorsB, e);
    hide Failures, WalkNotes;
  }

  lemma ListedAsNotes(errors: seq<WalkError>, e: WalkError)
    ensures Walk(e) in WalkNotes(errors) <==> e in errors
  {
    if i :| 0 <= i < |errors| && errors[i] == e {
      assert WalkNotes(errors)[i] == Walk(e);
    }
  }

  /** And a side short of the registered number of runs, or of three, is named. */
  lemma ShortSidesAreNamed(a: seq<real>, b: seq<real>, minN: int, skipped: Skipped)
    ensures UnderN("a", |a|, minN) in RowNotes(a, b, minN, skipped) <==> |a| < minN
    ensures UnderN("b", |b|, minN) in RowNotes(a, b, minN, skipped) <==> |b| < minN
    ensures TooFewForInterval(|a|, |b|) in RowNotes(a, b, minN, skipped) <==> |a| < 3 || |b| < 3
  {
    hide RowNotes;
    assert "a"[0] != "b"[0];
    NotedIff(UnderN("a", |a|, minN), a, b, minN, skipped);
    NotedIff(UnderN("b", |b|, minN), a, b, minN, skipped);
    NotedIff(TooFewForInterval(|a|, |b|), a, b, minN, skipped);
  }

  lemma {:induction false} BinErrorsAreOfRuns(reader: Reader, records: seq<RunRecord>, topic: string, hz: real)
    ensures forall n :: n in BinsOf(reader, records, topic, hz).errors ==> n.FailedWindow? || n.FailedRun?
  {
    if records != [] {
      BinErrorsAreOfRuns(reader, records[..|records| - 1], topic, hz);
      hide ReconcileRun;
    }
  }

  lemma CellNamesSkipped(cell: string, arm: string, lidar: LidarBinding, records: seq<RunRecord>, inadmissible: nat,
                         reader: Reader, median: seq<real> -> real, n: nat)
    requires Usable(lidar)
    ensures RunsInadmissible("cell", n) in ReconciliationOf(cell, arm, lidar, records, inadmissible, reader, median).notes
       <==> n > 0 && n == inadmissible
  {
    var b := BinsOf(reader, records, lidar.topic.value, lidar.expectedHz.value);
    CellNotesSkip(records, inadmissible, b, ZeroPublishedRuns(b.drops), n) by {
      BinErrorsAreOfRuns(reader, records, lidar.topic.value, lidar.expectedHz.value);
    }
    hide BinsOf, Highest, ObserverRates, PublisherRates, ZeroPublishedRuns, ReconciliationNotes;
  }

  lemma CellNotesSkip(records: seq<RunRecord>, inadmissible: nat, b: Bins, zero: nat, n: nat)
    requires forall e :: e in b.errors ==> e.FailedWindow? || e.FailedRun?
    ensures RunsInadmissible("cell", n) in ReconciliationNotes(records, inadmissible, b, zero) <==> n > 0 && n == inadmissible
  {
    hide If;
    var skip := RunsInadmissible("cell", n);
    InIf(skip, records == [], NoRuns);
    InIf(skip, inadmissible > 0, RunsInadmissible("cell", inadmissible));
    InIf(skip, b.notMeasurable > 0, NotMeasurable(b.notMeasurable));
    InIf(skip, zero > 0, ZeroPublished(zero));
  }

  /** A reconciliation row names the inadmissible runs of its own cell. */
  lemma ReconciliationNamesSkipped(d: Duel, arm: string, treeA: seq<Entry>, treeB: seq<Entry>, n: nat)
    requires Reconciles(d) && Usable(d.lidarA) && Usable(d.lidarB)
    ensures var rows := ArmReconciliation(d, arm, WalksOf(d, arm, treeA, treeB));
            var q := DuelQuery(arm, d.cellA, d.cellB);
            && (RunsInadmissible("cell", n) in rows[0].notes <==> n > 0 && n == Tally(e => Inadmissible(e, q), treeA))
            && (RunsInadmissible("cell", n) in rows[1].notes <==> n > 0 && n == Tally(e => Inadmissible(e, q), treeB))
  {
    hide ReconciliationOf, AdmittedRuns, WalkErrors, Tally;
    var w := WalksOf(d, arm, treeA, treeB);
    CellNamesSkipped(d.cellA, arm, d.lidarA, w.a, w.skipped.inadmissibleA, d.reader, d.stats.median, n);
    CellNamesSkipped(d.cellB, arm, d.lidarB, w.b, w.skipped.inadmissibleB, d.reader, d.stats.median, n);
  }

  /** The arms the caller named, else those both cells register. */
  function ArmsOf(given: Option<seq<string>>, armsA: set<string>, armsB: set<string>): seq<string> {
    match given
    case Some(arms) => arms
    case None => CommonArms(ARMS, armsA, armsB)
  }

  /** Every arm and bound margin has its one row, with cell A's runs on side a and cell
      B's on side b; no other row exists; the rows and the reconciliation keep the order
      of the arms and margins. */
  ghost predicate TableIsOfDuel(t: Table, d: Duel, arms: seq<string>, treeA: seq<Entry>, treeB: seq<Entry>) {
    && (DistinctMetrics(d.margins) && DistinctArms(arms) ==>
          forall arm, m :: arm in arms && m in d.margins && m.binding.Bound? ==>
            ScoredOnce(t.rows, d, m, arm, AdmittedRuns(treeA, d, arm), AdmittedRuns(treeB, d, arm)))
    && RowsAreOf(t.rows, d.margins, arms)
    && (forall j, k :: 0 <= j < k < |t.rows| ==> Precedes(d.margins, arms, t.rows[j], t.rows[k]))
    && ReconciledInOrder(t.reconciliation, d, arms, treeA, treeB)
  }

  lemma TableMeans(d: Duel, arms: seq<string>, treeA: seq<Entry>, treeB: seq<Entry>)
    ensures TableIsOfDuel(TableOf(d, arms, treeA, treeB), d, arms, treeA, treeB)
  {
    TableReconcilesInOrder(d, arms, treeA, treeB);
    TableRowsAreOf(d, arms, treeA, treeB);
    hide TableOf, AdmittedRuns, ScoredOnce, RowsAreOf, ReconciledInOrder, Precedes;
    var t := TableOf(d, arms, treeA, treeB);
    forall j, k | 0 <= j < k < |t.rows| ensures Precedes(d.margins, arms, t.rows[j], t.rows[k]) {
      TableKeepsOrder(d, arms, treeA, treeB, j, k);
    }
    forall arm, m | DistinctMetrics(d.margins) && DistinctArms(arms) && arm in arms && m in d.margins && m.binding.Bound?
      ensures ScoredOnce(t.rows, d, m, arm, AdmittedRuns(treeA, d, arm), AdmittedRuns(treeB, d, arm))
    {
      var i :| 0 <= i < |arms| && arms[i] == arm;
      var k :| 0 <= k < |d.margins| && d.margins[k] == m;
      TableScoresOnce(d, arms, treeA, treeB, i, k);
    }
  }

  /** build_verdict_table: one walk of each cell per arm, reused for every metric.
      Cells that share no arm are refused. */
  method BuildVerdictTable(d: Duel, given: Option<seq<string>>, armsA: set<string>, armsB: set<string>,
                           treeA: seq<Entry>, treeB: seq<Entry>) returns (table: Result<Table, string>)
    ensures var arms := ArmsOf(given, armsA, armsB);
            table == if arms == [] then Err("no common arm") else Ok(TableOf(d, arms, treeA, treeB))
    ensures table.Ok? ==> TableIsOfDuel(table.value, d, ArmsOf(given, armsA, armsB), treeA, treeB)
  {
    hide ArmRows, ArmReconciliation, WalksOf, TableIsOfDuel, CommonArms;
    var arms := ArmsOf(given, armsA, armsB);
    if arms == [] { return Err("no common arm"); }
    TableMeans(d, arms, treeA, treeB);
    var rows: seq<VerdictRow>, reconciliation: seq<ReconciliationRow> := [], [];
    var i := 0;
    while i < |arms|
      invariant 0 <= i <= |arms|
      invariant Table(rows, reconciliation) == TableOf(d, arms[..i], treeA, treeB)
    {
      assert arms[..i + 1][..i] == arms[..i];
      var w := WalkBoth(d, arms[i], treeA, treeB);
      var more, added := RowsOfArm(d, arms[i], w);
      rows, reconciliation := rows + more, reconciliation + added;
      i := i + 1;
    }
    assert arms[..i] == arms;
    return Ok(Table(rows, reconciliation));
  }

  method WalkBoth(d: Duel, arm: string, treeA: seq<Entry>, treeB: seq<Entry>) returns (w: Walks)
    ensures w == WalksOf(d, arm, treeA, treeB)
  {
    var q := DuelQuery(arm, d.cellA, d.cellB);
    var a, excludedA, inadmissibleA, errorsA := WalkCellRuns(treeA, q, d.reader.resolve);
    var b, excludedB, inadmissibleB, errorsB := WalkCellRuns(treeB, q, d.reader.resolve);
    w := Walks(a, b, Skipped(excludedA, excludedB, inadmissibleA, inadmissibleB), errorsA, errorsB);
  }

  method RowsOfArm(d: Duel, arm: string, w: Walks) returns (rows: seq<VerdictRow>, reconciliation: seq<ReconciliationRow>)
    ensures rows == ArmRows(d, d.margins, arm, w) && reconciliation == ArmReconciliation(d, arm, w)
  {
    rows, reconciliation := [], [];
    if Reconciles(d) {
      var rowA := CellReconciliationRow(d.cellA, arm, d.lidarA, w.a, w.skipped.inadmissibleA, d.reader, d.stats.median);
      var rowB := CellReconciliationRow(d.cellB, arm, d.lidarB, w.b, w.skipped.inadmissibleB, d.reader, d.stats.median);
      reconciliation := [rowA, rowB];
    }
    var i := 0;
    while i < |d.margins|
      invariant 0 <= i <= |d.margins|
      invariant rows == ArmRows(d, d.margins[..i], arm, w)
    {
      assert d.margins[..i + 1][..i] == d.margins[..i];
      if d.margins[i].binding.Bound? {
        var row := MetricRow(d, d.margins[i], arm, w);
        rows := rows + [row];
      }
      i := i + 1;
    }
    assert d.margins[..i] == d.margins;
  }

  // ---- what the verdicts depend on ----

  /** A row without its notes: n, delta, interval and verdict. */
  function Score(row: VerdictRow): VerdictRow {
    row.(notes := [])
  }

  function Rates(row: ReconciliationRow): ReconciliationRow {
    row.(notes := [])
  }

  function Scores(rows: seq<VerdictRow>): seq<VerdictRow> {
    seq(|rows|, i requires 0 <= i < |rows| => Score(rows[i]))
  }

  function AllRates(rows: seq<ReconciliationRow>): seq<ReconciliationRow> {
    seq(|rows|, i requires 0 <= i < |rows| => Rates(rows[i]))
  }

  lemma RowScoresOnItsRecords(d: Duel, m: Margin, arm: string, w: Walks, v: Walks)
    requires m.binding.Bound? && w.a == v.a && w.b == v.b
    ensures Score(RowOfMetric(d, m, arm, w)) == Score(RowOfMetric(d, m, arm, v))
  {
  }

  lemma {:induction false} ArmScoresOnItsRecords(d: Duel, margins: seq<Margin>, arm: string, w: Walks, v: Walks)
    requires w.a == v.a && w.b == v.b
    ensures Scores(ArmRows(d, margins, arm, w)) == Scores(ArmRows(d, margins, arm, v))
  {
    if margins != [] {
      var before, last := margins[..|margins| - 1], margins[|margins| - 1];
      ArmScoresOnItsRecords(d, before, arm, w, v);
      hide RowOfMetric;
      var rowW := if last.binding.Bound? then [RowOfMetric(d, last, arm, w)] else [];
      var rowV := if last.binding.Bound? then [RowOfMetric(d, last, arm, v)] else [];
      if last.binding.Bound? {
        RowScoresOnItsRecords(d, last, arm, w, v);
      }
      assert Scores(rowW) == Scores(rowV);
      ScoresAppend(ArmRows(d, before, arm, w), rowW);
      ScoresAppend(ArmRows(d, before, arm, v), rowV);
    }
  }

  lemma ScoresAppend(a: seq<VerdictRow>, b: seq<VerdictRow>)
    ensures Scores(a + b) == Scores(a) + Scores(b)
  {
  }

  lemma ReconciliationOnItsRecords(d: Duel, arm: string, w: Walks, v: Walks)
    requires w.a == v.a && w.b == v.b
    ensures AllRates(ArmReconciliation(d, arm, w)) == AllRates(ArmReconciliation(d, arm, v))
  {
  }

  /** Two pairs of trees with the same admitted runs get the same n, deltas,
      intervals, verdicts and reconciliation rates: only notes may differ. */
  lemma {:induction false} TableScoresOnAdmittedRuns(d: Duel, arms: seq<string>,
                                                     treeA: seq<Entry>, treeB: seq<Entry>, otherA: seq<Entry>, otherB: seq<Entry>)
    requires forall arm :: arm in arms ==>
      AdmittedRuns(treeA, d, arm) == AdmittedRuns(otherA, d, arm) && AdmittedRuns(treeB, d, arm) == AdmittedRuns(otherB, d, arm)
    ensures Scores(TableOf(d, arms, treeA, treeB).rows) == Scores(TableOf(d, arms, otherA, otherB).rows)
    ensures AllRates(TableOf(d, arms, treeA, treeB).reconciliation) == AllRates(TableOf(d, arms, otherA, otherB).reconciliation)
  {
    if arms != [] {
      var before, arm := arms[..|arms| - 1], arms[|arms| - 1];
      TableScoresOnAdmittedRuns(d, before, treeA, treeB, otherA, otherB);
      var w, v := WalksOf(d, arm, treeA, treeB), WalksOf(d, arm, otherA, otherB);
      ArmScoresOnItsRecords(d, d.margins, arm, w, v);
      ReconciliationOnItsRecords(d, arm, w, v);
      var t, u := TableOf(d, before, treeA, treeB), TableOf(d, before, otherA, otherB);
      ScoresAppend(t.rows, ArmRows(d, d.margins, arm, w));
      ScoresAppend(u.rows, ArmRows(d, d.margins, arm, v));
      RatesAppend(t.reconciliation, ArmReconciliation(d, arm, w));
      RatesAppend(u.reconciliation, ArmReconciliation(d, arm, v));
    }
  }

  lemma RatesAppend(a: seq<ReconciliationRow>, b: seq<ReconciliationRow>)
    ensures AllRates(a + b) == AllRates(a) + AllRates(b)
  {
  }

  /** One arm's rows are untouched by runs not admitted to that arm, be they of another
      arm of the same table. */
  lemma ArmIgnoresOtherRuns(d: Duel, arm: string, beforeA: seq<Entry>, extraA: seq<Entry>, afterA: seq<Entry>,
                            beforeB: seq<Entry>, extraB: seq<Entry>, afterB: seq<Entry>)
    requires forall e :: (e in extraA || e in extraB) && e.manifest.Loaded? ==>
               || e.manifest.m.arm != arm || e.manifest.m.excluded || !e.manifest.m.duelAdmissible
               || !(e.manifest.m.duelId == d.cellA + "+" + d.cellB
                    || (e.manifest.m.duelId == "" && d.cellA == "A" && d.cellB == "B"))
    ensures Scores(ArmRows(d, d.margins, arm, WalksOf(d, arm, beforeA + extraA + afterA, beforeB + extraB + afterB)))
         == Scores(ArmRows(d, d.margins, arm, WalksOf(d, arm, beforeA + afterA, beforeB + afterB)))
    ensures AllRates(ArmReconciliation(d, arm, WalksOf(d, arm, beforeA + extraA + afterA, beforeB + extraB + afterB)))
         == AllRates(ArmReconciliation(d, arm, WalksOf(d, arm, beforeA + afterA, beforeB + afterB)))
  {
    hide Admitted, Records, ArmRows, ArmReconciliation;
    var q := DuelQuery(arm, d.cellA, d.cellB);
    forall e | e in extraA || e in extraB ensures !Admitted(e, q) {
      EntersDuelIff(e, arm, d.cellA, d.cellB);
    }
    UnadmittedRunsAreInvisible(beforeA, extraA, afterA, q, d.reader.resolve);
    UnadmittedRunsAreInvisible(beforeB, extraB, afterB, q, d.reader.resolve);
    var w := WalksOf(d, arm, beforeA + extraA + afterA, beforeB + extraB + afterB);
    var v := WalksOf(d, arm, beforeA + afterA, beforeB + afterB);
    ArmScoresOnItsRecords(d, d.margins, arm, w, v);
    ReconciliationOnItsRecords(d, arm, w, v);
  }

  /** Runs that are excluded, inadmissible, of another arm or pool, or unreadable:
      filed anywhere in either tree, they change no verdict and no rate. */
  lemma OtherRunsChangeNothing(d: Duel, arms: seq<string>, beforeA: seq<Entry>, extraA: seq<Entry>, afterA: seq<Entry>,
                               beforeB: seq<Entry>, extraB: seq<Entry>, afterB: seq<Entry>)
    requires forall e :: (e in extraA || e in extraB) && e.manifest.Loaded? ==>
               || e.manifest.m.arm !in arms || e.manifest.m.excluded || !e.manifest.m.duelAdmissible
               || !(e.manifest.m.duelId == d.cellA + "+" + d.cellB
                    || (e.manifest.m.duelId == "" && d.cellA == "A" && d.cellB == "B"))
    ensures Scores(TableOf(d, arms, beforeA + extraA + afterA, beforeB + extraB + afterB).rows)
         == Scores(TableOf(d, arms, beforeA + afterA, beforeB + afterB).rows)
    ensures AllRates(TableOf(d, arms, beforeA + extraA + afterA, beforeB + extraB + afterB).reconciliation)
         == AllRates(TableOf(d, arms, beforeA + afterA, beforeB + afterB).reconciliation)
  {
    forall arm | arm in arms
      ensures AdmittedRuns(beforeA + extraA + afterA, d, arm) == AdmittedRuns(beforeA + afterA, d, arm)
      ensures AdmittedRuns(beforeB + extraB + afterB, d, arm) == AdmittedRuns(beforeB + afterB, d, arm)
    {
      var q := DuelQuery(arm, d.cellA, d.cellB);
      forall e | e in extraA || e in extraB ensures !Admitted(e, q) {
        EntersDuelIff(e, arm, d.cellA, d.cellB);
      }
      UnadmittedRunsAreInvisible(beforeA, extraA, afterA, q, d.reader.resolve);
      UnadmittedRunsAreInvisible(beforeB, extraB, afterB, q, d.reader.resolve);
    }
    TableScoresOnAdmittedRuns(d, arms, beforeA + extraA + afterA, beforeB + extraB + afterB, beforeA + afterA, beforeB + afterB);
  }
}
