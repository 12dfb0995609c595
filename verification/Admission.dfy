/** Which runs of a cell's results tree enter a duel: the walk over its run-*
    entries, and the pools of different duels. */
module Admission {
  import opened Prelude
  import opened RunWindow

  /** What a run directory holds besides its manifest. */
  type Files(!new)

  datatype Manifest = Manifest(arm: string, excluded: bool, duelAdmissible: bool, duelId: string)
  datatype ManifestFile = NoManifest | Invalid(why: string) | Loaded(m: Manifest)
  datatype Entry = Entry(name: string, manifest: ManifestFile, files: Files)

  /** An arm of None admits every arm; a duel id of None every pool. */
  datatype Query = Query(arm: Option<string>, duelId: Option<string>, legacyOk: bool)

  datatype RunRecord = RunRecord(name: string, files: Files, manifest: Manifest, window: Result<Bounds, string>)
  datatype WalkError = NoManifestJson(name: string) | FailedLoading(name: string, why: string)

  type Resolver = (Files, Manifest) -> Result<Bounds, string>

  // ---- the five fates of a run ----

  predicate InScope(e: Entry, q: Query) {
    e.manifest.Loaded? && (q.arm.None? || q.arm == Some(e.manifest.m.arm))
  }

  predicate OtherArm(e: Entry, q: Query) {
    e.manifest.Loaded? && q.arm.Some? && q.arm.value != e.manifest.m.arm
  }

  predicate InPool(duelId: string, q: Query) {
    q.duelId.None? || q.duelId.value == duelId || (q.legacyOk && duelId == "")
  }

  predicate Excluded(e: Entry, q: Query) {
    InScope(e, q) && e.manifest.m.excluded
  }

  predicate Inadmissible(e: Entry, q: Query) {
    InScope(e, q) && !e.manifest.m.excluded && (!e.manifest.m.duelAdmissible || !InPool(e.manifest.m.duelId, q))
  }

  predicate Admitted(e: Entry, q: Query) {
    && InScope(e, q) && !e.manifest.m.excluded
    && e.manifest.m.duelAdmissible && InPool(e.manifest.m.duelId, q)
  }

  function Tally(holds: Entry -> bool, tree: seq<Entry>): nat {
    if tree == [] then 0
    else Tally(holds, tree[..|tree| - 1]) + if holds(tree[|tree| - 1]) then 1 else 0
  }

  function RecordOf(e: Entry, resolve: Resolver): RunRecord
    requires e.manifest.Loaded?
  {
    RunRecord(e.name, e.files, e.manifest.m, resolve(e.files, e.manifest.m))
  }

  /** The records of the admitted entries, in tree order. */
  function Records(tree: seq<Entry>, q: Query, resolve: Resolver): seq<RunRecord> {
    if tree == [] then []
    else
      Records(tree[..|tree| - 1], q, resolve)
      + if Admitted(tree[|tree| - 1], q) then [RecordOf(tree[|tree| - 1], resolve)] else []
  }

  function ErrorsOf(e: Entry): seq<WalkError> {
    match e.manifest
    case NoManifest => [NoManifestJson(e.name)]
    case Invalid(why) => [FailedLoading(e.name, why)]
    case Loaded(_) => []
  }

  function WalkErrors(tree: seq<Entry>): seq<WalkError> {
    if tree == [] then [] else WalkErrors(tree[..|tree| - 1]) + ErrorsOf(tree[|tree| - 1])
  }

  lemma OneMoreEntry(tree: seq<Entry>, i: nat, q: Query, resolve: Resolver)
    requires i < |tree|
    ensures Records(tree[..i + 1], q, resolve)
         == Records(tree[..i], q, resolve) + if Admitted(tree[i], q) then [RecordOf(tree[i], resolve)] else []
    ensures WalkErrors(tree[..i + 1]) == WalkErrors(tree[..i]) + ErrorsOf(tree[i])
  {
    assert tree[..i + 1][..i] == tree[..i];
  }

  lemma OneMoreTallied(holds: Entry -> bool, tree: seq<Entry>, i: nat)
    requires i < |tree|
    ensures Tally(holds, tree[..i + 1]) == Tally(holds, tree[..i]) + if holds(tree[i]) then 1 else 0
  {
    assert tree[..i + 1][..i] == tree[..i];
  }

  /** _walk_cell_runs, over the entries in name order. */
  method WalkCellRuns(tree: seq<Entry>, q: Query, resolve: Resolver)
    returns (records: seq<RunRecord>, excluded: nat, inadmissible: nat, errors: seq<WalkError>)
    ensures records == Records(tree, q, resolve)
    ensures excluded == Tally(e => Excluded(e, q), tree)
    ensures inadmissible == Tally(e => Inadmissible(e, q), tree)
    ensures errors == WalkErrors(tree)
  {
    hide Tally, Records, WalkErrors;
    ghost var isExcluded := e => Excluded(e, q);
    ghost var isInadmissible := e => Inadmissible(e, q);
    records, excluded, inadmissible, errors := [], 0, 0, [];
    NothingWalked(isExcluded, isInadmissible, q, resolve);
    assert tree[..0] == [];
    var i := 0;
    while i < |tree|
      invariant 0 <= i <= |tree|
      invariant records == Records(tree[..i], q, resolve)
      invariant excluded == Tally(isExcluded, tree[..i])
      invariant inadmissible == Tally(isInadmissible, tree[..i])
      invariant errors == WalkErrors(tree[..i])
    {
      var run := tree[i];
      OneMoreEntry(tree, i, q, resolve);
      OneMoreTallied(isExcluded, tree, i);
      OneMoreTallied(isInadmissible, tree, i);
      i := i + 1;
      if run.manifest.NoManifest? {
        errors := errors + [NoManifestJson(run.name)];
        continue;
      }
      if run.manifest.Invalid? {
        errors := errors + [FailedLoading(run.name, run.manifest.why)];
        continue;
      }
      var m := run.manifest.m;
      if q.arm.Some? && m.arm != q.arm.value {
        continue;
      }
      if m.excluded {
        excluded := excluded + 1;
        continue;
      }
      if !m.duelAdmissible {
        inadmissible := inadmissible + 1;
        continue;
      }
      if q.duelId.Some? && m.duelId != q.duelId.value && !(q.legacyOk && m.duelId == "") {
        inadmissible := inadmissible + 1;
        continue;
      }
      records := records + [RunRecord(run.name, run.files, m, resolve(run.files, m))];
    }
    assert tree[..i] == tree;
  }

  lemma NothingWalked(isExcluded: Entry -> bool, isInadmissible: Entry -> bool, q: Query, resolve: Resolver)
    ensures Records([], q, resolve) == [] && WalkErrors([]) == []
    ensures Tally(isExcluded, []) == 0 && Tally(isInadmissible, []) == 0
  {
  }

  /** A record is in the walk's result exactly when some admitted entry made it. */
  lemma {:induction false} RecordedIffAdmitted(tree: seq<Entry>, q: Query, resolve: Resolver, r: RunRecord)
    ensures r in Records(tree, q, resolve) <==> exists e :: e in tree && Admitted(e, q) && r == RecordOf(e, resolve)
  {
    if tree != [] {
      var before, last := tree[..|tree| - 1], tree[|tree| - 1];
      RecordedIffAdmitted(before, q, resolve, r);
      assert tree == before + [last];
    }
  }

  /** Nothing is lost or counted twice. */
  lemma {:induction false} WalkConserves(tree: seq<Entry>, q: Query, resolve: Resolver)
    ensures |Records(tree, q, resolve)| + Tally(e => Excluded(e, q), tree) + Tally(e => Inadmissible(e, q), tree)
          + Tally(e => OtherArm(e, q), tree) + |WalkErrors(tree)| == |tree|
  {
    if tree != [] {
      WalkConserves(tree[..|tree| - 1], q, resolve);
    }
  }

  // ---- non-interference ----

  lemma {:induction false} RecordsAppend(a: seq<Entry>, b: seq<Entry>, q: Query, resolve: Resolver)
    ensures Records(a + b, q, resolve) == Records(a, q, resolve) + Records(b, q, resolve)
  {
    if b == [] {
      assert a + b == a;
    } else {
      assert (a + b)[..|a + b| - 1] == a + b[..|b| - 1];
      RecordsAppend(a, b[..|b| - 1], q, resolve);
    }
  }

  lemma {:induction false} NoneRecorded(extra: seq<Entry>, q: Query, resolve: Resolver)
    requires forall e :: e in extra ==> !Admitted(e, q)
    ensures Records(extra, q, resolve) == []
  {
    if extra != [] {
      assert extra[|extra| - 1] in extra;
      NoneRecorded(extra[..|extra| - 1], q, resolve);
    }
  }

  /** Entries that are not admitted leave the records as they were, wherever they sort. */
  lemma UnadmittedRunsAreInvisible(before: seq<Entry>, extra: seq<Entry>, after: seq<Entry>, q: Query, resolve: Resolver)
    requires forall e :: e in extra ==> !Admitted(e, q)
    ensures Records(before + extra + after, q, resolve) == Records(before + after, q, resolve)
  {
    RecordsAppend(before + extra, after, q, resolve);
    RecordsAppend(before, extra, q, resolve);
    RecordsAppend(before, after, q, resolve);
    NoneRecorded(extra, q, resolve);
    assert Records(before, q, resolve) + [] == Records(before, q, resolve);
  }

  // ---- the pools of different duels ----

  function DuelId(a: string, b: string): string {
    a + "+" + b
  }

  /** The query build_verdict_table makes for the duel of cell a against cell b. */
  function DuelQuery(arm: string, a: string, b: string): Query {
    Query(Some(arm), Some(DuelId(a, b)), a == "A" && b == "B")
  }

  /** The condition on the manifest itself under which a run enters the records of
      cell a or b for their duel and one arm. */
  lemma EntersDuelIff(e: Entry, arm: string, a: string, b: string)
    ensures Admitted(e, DuelQuery(arm, a, b)) <==>
              && e.manifest.Loaded? && e.manifest.m.arm == arm
              && !e.manifest.m.excluded && e.manifest.m.duelAdmissible
              && (e.manifest.m.duelId == a + "+" + b || (e.manifest.m.duelId == "" && a == "A" && b == "B"))
  {
  }

  /** And the condition under which it is counted instead: excluded first, then
      inadmissible for being outside the duel's design or in another pool. */
  lemma CountedInDuelIff(e: Entry, arm: string, a: string, b: string)
    ensures Excluded(e, DuelQuery(arm, a, b)) <==>
              e.manifest.Loaded? && e.manifest.m.arm == arm && e.manifest.m.excluded
    ensures Inadmissible(e, DuelQuery(arm, a, b)) <==>
              && e.manifest.Loaded? && e.manifest.m.arm == arm && !e.manifest.m.excluded
              && !(e.manifest.m.duelAdmissible
                   && (e.manifest.m.duelId == a + "+" + b || (e.manifest.m.duelId == "" && a == "A" && b == "B")))
    ensures OtherArm(e, DuelQuery(arm, a, b)) <==> e.manifest.Loaded? && e.manifest.m.arm != arm
  {
  }

  /** The records of a duel's arm: a run is among them exactly when an entry of the tree
      with such a manifest made it. */
  lemma DuelRecordsIff(tree: seq<Entry>, arm: string, a: string, b: string, resolve: Resolver, r: RunRecord)
    ensures r in Records(tree, DuelQuery(arm, a, b), resolve) <==>
              exists e :: e in tree && e.manifest.Loaded? && e.manifest.m.arm == arm
                          && !e.manifest.m.excluded && e.manifest.m.duelAdmissible
                          && (e.manifest.m.duelId == a + "+" + b || (e.manifest.m.duelId == "" && a == "A" && b == "B"))
                          && r == RunRecord(e.name, e.files, e.manifest.m, resolve(e.files, e.manifest.m))
  {
    RecordedIffAdmitted(tree, DuelQuery(arm, a, b), resolve, r);
    forall e ensures Admitted(e, DuelQuery(arm, a, b)) <==>
              && e.manifest.Loaded? && e.manifest.m.arm == arm
              && !e.manifest.m.excluded && e.manifest.m.duelAdmissible
              && (e.manifest.m.duelId == a + "+" + b || (e.manifest.m.duelId == "" && a == "A" && b == "B"))
    {
      EntersDuelIff(e, arm, a, b);
    }
  }

  predicate PlusFree(s: string) {
    '+' !in s
  }

  lemma DuelIdIsInjective(a: string, b: string, c: string, d: string)
    requires PlusFree(a) && PlusFree(c) && DuelId(a, b) == DuelId(c, d)
    ensures a == c && b == d
  {
    FirstPlusIsTheSeparator(a, b, c, d);
    FirstPlusIsTheSeparator(c, d, a, b);
    var id := DuelId(a, b);
    assert a == id[..|a|] && c == DuelId(c, d)[..|c|];
    assert b == id[|a| + 1..] && d == DuelId(c, d)[|c| + 1..];
  }

  lemma FirstPlusIsTheSeparator(a: string, b: string, c: string, d: string)
    requires PlusFree(c) && DuelId(a, b) == DuelId(c, d)
    ensures |a| >= |c|
  {
    forall i | 0 <= i < |c| ensures DuelId(c, d)[i] != '+' {
      assert c[i] in c;
    }
    assert DuelId(a, b)[|a|] == '+';
  }

  /** A run enters the pool of at most one ordered pairing of cells, and a run with
      the empty legacy id only that of (A, B). */
  lemma PoolsAreDisjoint(duelId: string, arm: string, other: string, a: string, b: string, c: string, d: string)
    requires PlusFree(a) && PlusFree(c)
    requires InPool(duelId, DuelQuery(arm, a, b)) && InPool(duelId, DuelQuery(other, c, d))
    ensures a == c && b == d
    ensures duelId == "" ==> a == "A" && b == "B"
  {
    assert |DuelId(a, b)| > 0 && |DuelId(c, d)| > 0;
    if duelId != "" {
      DuelIdIsInjective(a, b, c, d);
    }
  }

  ghost predicate SharesPool(a: string, b: string, c: string, d: string) {
    (a != c || b != d) && DuelId(a, b) == DuelId(c, d)
  }

  /** Exactly the plus-free pairings have a duel id, and so a pool, of their own. */
  lemma PoolIsSharedIff(c: string, d: string)
    ensures (exists a, b :: SharesPool(a, b, c, d)) <==> !PlusFree(c) || !PlusFree(d)
  {
    if PlusFree(c) && PlusFree(d) {
      forall a, b ensures !SharesPool(a, b, c, d) {
        if DuelId(a, b) == DuelId(c, d) {
          OnlyOnePlus(a, b, c, d);
          DuelIdIsInjective(a, b, c, d);
        }
      }
    } else if !PlusFree(c) {
      var i :| 0 <= i < |c| && c[i] == '+';
      var a, b := c[..i], c[i + 1..] + "+" + d;
      assert c == c[..i] + "+" + c[i + 1..];
      assert DuelId(a, b) == DuelId(c, d);
      assert SharesPool(a, b, c, d);
    } else {
      var i :| 0 <= i < |d| && d[i] == '+';
      var a, b := c + "+" + d[..i], d[i + 1..];
      assert d == d[..i] + "+" + d[i + 1..];
      assert DuelId(a, b) == DuelId(c, d);
      assert SharesPool(a, b, c, d);
    }
  }

  /** An id with a single plus can only be split there. */
  lemma OnlyOnePlus(a: string, b: string, c: string, d: string)
    requires PlusFree(c) && PlusFree(d) && DuelId(a, b) == DuelId(c, d)
    ensures PlusFree(a)
  {
    var id := DuelId(c, d);
    forall k | 0 <= k < |id| && k != |c| ensures id[k] != '+' {
      if k < |c| {
        assert id[k] == c[k] && c[k] in c;
      } else {
        assert id[k] == d[k - |c| - 1] && d[k - |c| - 1] in d;
      }
    }
    assert DuelId(a, b)[|a|] == '+';
    forall k | 0 <= k < |a| ensures a[k] != '+' {
      assert a[k] == DuelId(a, b)[k];
    }
  }

  /** With a plus sign in a cell id two different pairings share a pool. */
  lemma PlusSignsCollide()
    ensures InPool("A+B+C", DuelQuery("static", "A+B", "C")) && InPool("A+B+C", DuelQuery("static", "A", "B+C"))
  {
    assert DuelId("A+B", "C") == "A+B+C" == DuelId("A", "B+C");
  }
}
