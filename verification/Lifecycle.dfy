/** Actor and world-settings lifecycle of one run: spawning with partial-failure
    cleanup, the tick loops, and the teardown in the runner's finally block. */
module Lifecycle {
  import opened Prelude

  datatype Settings = Settings(sync: bool, fixedDelta: Option<real>, maxSubstep: real, maxSubsteps: int)

  /** An actor is named by the position in the log of the call that spawned it. */
  type Actor = nat

  datatype Call =
    | SpawnEgo | SpawnTopLidar | SpawnImu | SpawnCamera(index: int)
    | Brake(actor: Actor) | Destroy(actor: Actor)
    | GetSettings | ApplySettings(settings: Settings)
    | Tick | WaitForTick | OnTick

  datatype Event = Event(call: Call, raised: bool)

  /** The exception of call number `at`, or a normal return. */
  datatype Outcome = Returned | Raised(at: nat)

  predicate IsSpawn(c: Call) {
    c.SpawnEgo? || c.SpawnTopLidar? || c.SpawnImu? || c.SpawnCamera?
  }

  predicate Spawns(e: Event) {
    IsSpawn(e.call) && !e.raised
  }

  predicate IsTeardown(c: Call) {
    c.Brake? || c.Destroy?
  }

  /** How often the log tries to destroy an actor. */
  function Attempts(log: seq<Event>, a: Actor): nat {
    if log == [] then 0
    else Attempts(log[..|log| - 1], a) + if log[|log| - 1].call == Destroy(a) then 1 else 0
  }

  lemma AttemptsAppend(log: seq<Event>, e: Event, a: Actor)
    ensures Attempts(log + [e], a) == Attempts(log, a) + if e.call == Destroy(a) then 1 else 0
  {
    assert (log + [e])[..|log|] == log;
  }

  ghost predicate NoRepeats(s: seq<Actor>) {
    forall i, j :: 0 <= i < j < |s| ==> s[i] != s[j]
  }

  /** Destroy calls only name actors of earlier calls. */
  ghost predicate DestroysLookBack(log: seq<Event>) {
    forall k :: 0 <= k < |log| && log[k].call.Destroy? ==> log[k].call.actor < k
  }

  lemma {:induction false} NotYetNamed(log: seq<Event>, a: Actor)
    requires DestroysLookBack(log) && |log| <= a
    ensures Attempts(log, a) == 0
  {
    if log != [] {
      NotYetNamed(log[..|log| - 1], a);
    }
  }

  /** The CARLA world as the runner drives it. Which calls raise is decided by
      `raises`, an arbitrary function of the call's number. */
  class World {
    const raises: nat -> bool
    var log: seq<Event>
    var settings: Settings

    constructor (raises: nat -> bool, settings: Settings)
      ensures log == [] && this.raises == raises && this.settings == settings
    {
      this.raises := raises;
      this.log := [];
      this.settings := settings;
    }

    /** One call into the simulator: recorded, and raising or not. */
    method Do(c: Call) returns (raised: bool)
      modifies this
      ensures raised == raises(old(|log|))
      ensures log == old(log) + [Event(c, raised)]
      ensures settings == if c.ApplySettings? && !raised then c.settings else old(settings)
    {
      raised := raises(|log|);
      log := log + [Event(c, raised)];
      if c.ApplySettings? && !raised {
        settings := c.settings;
      }
    }
  }

  // ---- accounting for actors ----

  /** Of the actors spawned since `start`, exactly the held ones are still to be
      destroyed; every other has had its one attempt. */
  ghost predicate Tracks(log: seq<Event>, start: nat, held: seq<Actor>) {
    && start <= |log|
    && DestroysLookBack(log)
    && NoRepeats(held)
    && (forall a :: a in held ==> start <= a < |log| && Spawns(log[a]) && Attempts(log, a) == 0)
    && (forall a :: start <= a < |log| && Spawns(log[a]) && a !in held ==> Attempts(log, a) == 1)
  }

  lemma TracksOther(log: seq<Event>, start: nat, held: seq<Actor>, e: Event)
    requires Tracks(log, start, held) && !Spawns(e) && !e.call.Destroy?
    ensures Tracks(log + [e], start, held)
  {
    forall a ensures Attempts(log + [e], a) == Attempts(log, a) {
      AttemptsAppend(log, e, a);
    }
  }

  lemma TracksSpawn(log: seq<Event>, start: nat, held: seq<Actor>, e: Event)
    requires Tracks(log, start, held) && Spawns(e)
    ensures Tracks(log + [e], start, held + [|log|])
  {
    NotYetNamed(log, |log|);
    forall a ensures Attempts(log + [e], a) == Attempts(log, a) {
      AttemptsAppend(log, e, a);
    }
  }

  lemma TracksDestroy(log: seq<Event>, start: nat, before: seq<Actor>, a: Actor, after: seq<Actor>, e: Event)
    requires Tracks(log, start, before + [a] + after) && e.call == Destroy(a)
    ensures Tracks(log + [e], start, before + after)
  {
    var held := before + [a] + after;
    assert held[|before|] == a;
    assert a in held;
    forall b ensures Attempts(log + [e], b) == Attempts(log, b) + if b == a then 1 else 0 {
      AttemptsAppend(log, e, b);
    }
    forall b | b in before + after ensures b in held && b != a {
      var i :| 0 <= i < |before + after| && (before + after)[i] == b;
      assert held[if i < |before| then i else i + 1] == b;
    }
    forall b | b in held && b != a ensures b in before + after {
    }
    NoRepeatsWithout(before, a, after);
  }

  lemma NoRepeatsWithout(before: seq<Actor>, a: Actor, after: seq<Actor>)
    requires NoRepeats(before + [a] + after)
    ensures NoRepeats(before + after)
  {
    var held := before + [a] + after;
    forall i, j | 0 <= i < j < |before + after| ensures (before + after)[i] != (before + after)[j] {
      assert (before + after)[i] == held[if i < |before| then i else i + 1];
      assert (before + after)[j] == held[if j < |before| then j else j + 1];
    }
  }

  // ---- which exception leaves ----

  /** No exception of a teardown call ever leaves the run, and the one that does is
      the last raised by any other call. */
  ghost predicate Propagates(log: seq<Event>, n: nat, o: Outcome) {
    match o
    case Returned => forall k :: n <= k < |log| && log[k].raised ==> IsTeardown(log[k].call)
    case Raised(at) =>
      && n <= at < |log| && log[at].raised && !IsTeardown(log[at].call)
      && forall k :: at < k < |log| && log[k].raised ==> IsTeardown(log[k].call)
  }

  lemma PropagatesAfter(before: seq<Event>, log: seq<Event>, n: nat, o: Outcome)
    requires n <= |before| && before <= log
    requires Propagates(before, n, Returned) && Propagates(log, |before|, o)
    ensures Propagates(log, n, o)
  {
    forall k | n <= k < |before| && log[k].raised ensures IsTeardown(log[k].call) {
      assert before[k] == log[k];
    }
  }

  lemma TeardownPropagates(before: seq<Event>, log: seq<Event>, n: nat, o: Outcome)
    requires before <= log && Propagates(before, n, o)
    requires forall k :: |before| <= k < |log| ==> IsTeardown(log[k].call)
    ensures Propagates(log, n, o)
  {
    forall k | n <= k < |before| ensures log[k] == before[k] {
    }
  }

  // ---- cleaning up before the teardown ----

  /** The call of the runner that a spawn belongs to: the ego, the rig or the cameras. */
  function Batch(c: Call): nat {
    if c.SpawnEgo? then 1 else if c.SpawnTopLidar? || c.SpawnImu? then 2 else if c.SpawnCamera? then 3 else 0
  }

  /** Spawn k raised just after a spawn of its own batch had succeeded. */
  ghost predicate FailsAfterSibling(log: seq<Event>, k: nat) {
    && 0 < k < |log| && IsSpawn(log[k].call) && log[k].raised
    && Spawns(log[k - 1]) && Batch(log[k - 1].call) == Batch(log[k].call)
  }

  ghost predicate EarlyDestroy(log: seq<Event>, n: nat, m: nat) {
    exists k :: n <= k < m && k < |log| && log[k].call.Destroy?
  }

  /** Calls n up to m destroy an actor exactly when a spawn among them failed after
      one of its batch had succeeded. */
  ghost predicate CleansUpIff(log: seq<Event>, n: nat, m: nat) {
    EarlyDestroy(log, n, m) <==> exists k :: n < k < m && FailsAfterSibling(log, k)
  }

  /** Calls from m on belong to another batch than call m - 1. */
  predicate NewBatch(log: seq<Event>, m: nat) {
    0 < m < |log| ==> !IsSpawn(log[m].call) || Batch(log[m].call) != Batch(log[m - 1].call)
  }

  lemma CleansUpAfter(before: seq<Event>, log: seq<Event>, n: nat)
    requires n < |before| && before <= log && NewBatch(log, |before|)
    requires CleansUpIff(before, n, |before|) && CleansUpIff(log, |before|, |log|)
    ensures CleansUpIff(log, n, |log|)
  {
    var m := |before|;
    CleansUpPrefix(before, log, n);
    assert !FailsAfterSibling(log, m);
    if EarlyDestroy(log, n, |log|) {
      var k :| n <= k < |log| && log[k].call.Destroy?;
      if k < m { assert EarlyDestroy(log, n, m); } else { assert EarlyDestroy(log, m, |log|); }
    }
    if j: nat :| n < j < |log| && FailsAfterSibling(log, j) {
      if j < m { assert EarlyDestroy(log, n, m); } else { assert EarlyDestroy(log, m, |log|); }
    }
  }

  lemma CleansUpPrefix(before: seq<Event>, log: seq<Event>, n: nat)
    requires before <= log && CleansUpIff(before, n, |before|)
    ensures CleansUpIff(log, n, |before|)
  {
    forall k: nat | k < |before| ensures log[k] == before[k] {
    }
    forall k: nat | k < |before| ensures FailsAfterSibling(log, k) <==> FailsAfterSibling(before, k) {
    }
    assert EarlyDestroy(log, n, |before|) <==> EarlyDestroy(before, n, |before|);
  }

  /** Neither spawning nor destroying. */
  ghost predicate Driving(log: seq<Event>, n: nat) {
    forall k :: n <= k < |log| ==> !IsSpawn(log[k].call) && !log[k].call.Destroy?
  }

  lemma DrivingCleansNothing(log: seq<Event>, n: nat)
    requires Driving(log, n)
    ensures CleansUpIff(log, n, |log|)
  {
    assert !EarlyDestroy(log, n, |log|);
    forall k: nat | n < k < |log| ensures !FailsAfterSibling(log, k) {
    }
  }

  // ---- destroying and spawning ----

  /** The calls since position n are one Destroy per actor, in order. */
  ghost predicate Destroyed(log: seq<Event>, n: nat, actors: seq<Actor>) {
    && |log| == n + |actors|
    && forall i :: 0 <= i < |actors| ==> log[n + i].call == Destroy(actors[i])
  }

  /** One destroy attempt per actor, in order; what an attempt raises is swallowed. */
  method DestroyAll(w: World, actors: seq<Actor>, ghost start: nat, ghost kept: seq<Actor>)
    requires Tracks(w.log, start, kept + actors)
    modifies w
    ensures Tracks(w.log, start, kept)
    ensures w.settings == old(w.settings)
    ensures old(w.log) <= w.log && Destroyed(w.log, |old(w.log)|, actors)
  {
    var i := 0;
    assert actors[0..] == actors;
    while i < |actors|
      invariant 0 <= i <= |actors|
      invariant Tracks(w.log, start, kept + actors[i..])
      invariant w.settings == old(w.settings)
      invariant old(w.log) <= w.log && Destroyed(w.log, |old(w.log)|, actors[..i])
    {
      ghost var log := w.log;
      var swallowed := w.Do(Destroy(actors[i]));
      assert kept + actors[i..] == kept + [actors[i]] + actors[i + 1..];
      TracksDestroy(log, start, kept, actors[i], actors[i + 1..], Event(Destroy(actors[i]), swallowed));
      i := i + 1;
    }
    assert kept + actors[i..] == kept;
    assert actors[..i] == actors;
  }

  /** Calls made one after the other, none raising: actors n, n+1, ... */
  ghost predicate AllSpawned(log: seq<Event>, n: nat, calls: seq<Call>) {
    && n + |calls| <= |log|
    && forall i :: 0 <= i < |calls| ==> log[n + i] == Event(calls[i], false)
  }

  function ActorsFrom(n: nat, count: nat): seq<Actor> {
    seq(count, i requires 0 <= i => n + i)
  }

  /** What a partial-spawn-safe call does: either every actor is spawned and
      returned, or call k raises, the k - n actors before it are destroyed in order,
      and the exception of call k is the one re-raised. */
  ghost predicate SpawnedOrCleaned(log: seq<Event>, n: nat, calls: seq<Call>, o: Outcome, spawned: seq<Actor>) {
    match o
    case Returned =>
      AllSpawned(log, n, calls) && |log| == n + |calls| && spawned == ActorsFrom(n, |calls|)
    case Raised(k) =>
      && spawned == []
      && n <= k < n + |calls|
      && AllSpawned(log, n, calls[..k - n])
      && k < |log| && log[k] == Event(calls[k - n], true)
      && Destroyed(log, k + 1, ActorsFrom(n, k - n))
  }

  lemma SpawningPropagates(log: seq<Event>, n: nat, calls: seq<Call>, o: Outcome, spawned: seq<Actor>)
    requires SpawnedOrCleaned(log, n, calls, o, spawned) && forall c :: c in calls ==> IsSpawn(c)
    ensures Propagates(log, n, o)
  {
    var last := if o.Returned? then |log| else o.at;
    assert o.Raised? ==> log[o.at].call in calls;
    forall k | n <= k < last ensures !log[k].raised {
      assert log[n + (k - n)] == Event(calls[k - n], false);
    }
    forall k | last < k < |log| ensures log[k].call.Destroy? {
      var i := k - (o.at + 1);
      assert log[o.at + 1 + i].call == Destroy(ActorsFrom(n, o.at - n)[i]);
    }
  }

  lemma SpawningCleansUp(log: seq<Event>, n: nat, calls: seq<Call>, o: Outcome, spawned: seq<Actor>, b: nat)
    requires SpawnedOrCleaned(log, n, calls, o, spawned)
    requires forall c :: c in calls ==> IsSpawn(c) && Batch(c) == b
    ensures CleansUpIff(log, n, |log|) && (n < |log| ==> Batch(log[n].call) == b)
    ensures o.Returned? ==> |log| == n + |calls| && forall i :: n <= i < |log| ==> log[i].call in calls
  {
    var last := if o.Returned? then |log| else o.at;
    forall k | n <= k < last ensures log[k].call in calls && !log[k].raised {
      assert log[n + (k - n)] == Event(calls[k - n], false);
    }
    forall k | last < k < |log| ensures log[k].call.Destroy? {
      var i := k - (o.at + 1);
      assert log[o.at + 1 + i].call == Destroy(ActorsFrom(n, o.at - n)[i]);
    }
    assert o.Raised? ==> log[last].call in calls;
    if o.Raised? && last > n {
      assert FailsAfterSibling(log, last);
      assert log[last + 1].call.Destroy?;
    } else {
      assert forall k :: n <= k < |log| ==> log[k].call in calls && k <= last;
      assert forall k: nat :: n < k < |log| && FailsAfterSibling(log, k) ==> k == last;
    }
  }

  const RIG := [SpawnTopLidar, SpawnImu]

  method SpawnSensors(w: World, ghost start: nat, ghost held: seq<Actor>) returns (o: Outcome, spawned: seq<Actor>)
    requires Tracks(w.log, start, held)
    modifies w
    ensures Tracks(w.log, start, held + spawned)
    ensures w.settings == old(w.settings)
    ensures old(w.log) <= w.log && SpawnedOrCleaned(w.log, |old(w.log)|, RIG, o, spawned)
    ensures o.Raised? ==> spawned == []
    ensures CleansUpIff(w.log, |old(w.log)|, |w.log|)
    ensures |w.log| > |old(w.log)| && Batch(w.log[|old(w.log)|].call) == 2
    ensures o.Returned? ==> Batch(w.log[|w.log| - 1].call) == 2
    ensures o.Returned? ==>
              w.log == old(w.log) + [Event(SpawnTopLidar, false), Event(SpawnImu, false)] && spawned == [|old(w.log)|, |old(w.log)| + 1]
    ensures Propagates(w.log, |old(w.log)|, o)
  {
    hide Tracks, Propagates, CleansUpIff;
    spawned := [];
    ghost var n := |w.log|;
    assert held + [] == held;
    var raised := SpawnOne(w, SpawnTopLidar, start, held);
    if !raised {
      spawned := spawned + [|w.log| - 1];
      assert held + [] + [n] == held + spawned;
      raised := SpawnOne(w, SpawnImu, start, held + spawned);
      if !raised {
        assert held + spawned + [n + 1] == held + (spawned + [n + 1]);
        spawned := spawned + [|w.log| - 1];
        SpawningPropagates(w.log, n, RIG, Returned, spawned);
        SpawningCleansUp(w.log, n, RIG, Returned, spawned, 2);
        return Returned, spawned;
      }
    }
    o := Raised(|w.log| - 1);
    assert spawned == ActorsFrom(n, o.at - n);
    DestroyAll(w, spawned, start, held);
    spawned := [];
    assert held + [] == held;
    SpawningPropagates(w.log, n, RIG, o, spawned);
    SpawningCleansUp(w.log, n, RIG, o, spawned, 2);
  }

  /** One spawn call: on success its position names the new actor. */
  method SpawnOne(w: World, c: Call, ghost start: nat, ghost held: seq<Actor>) returns (raised: bool)
    requires IsSpawn(c) && Tracks(w.log, start, held)
    modifies w
    ensures w.log == old(w.log) + [Event(c, raised)]
    ensures w.settings == old(w.settings)
    ensures Tracks(w.log, start, if raised then held else held + [|old(w.log)|])
  {
    ghost var log := w.log;
    raised := w.Do(c);
    if raised {
      TracksOther(log, start, held, Event(c, raised));
    } else {
      TracksSpawn(log, start, held, Event(c, raised));
    }
  }

  function Cameras(count: int): (calls: seq<Call>)
    ensures |calls| == if count > 0 then count else 0
    ensures forall i :: 0 <= i < |calls| ==> calls[i] == SpawnCamera(i)
  {
    seq(if count > 0 then count else 0, i => SpawnCamera(i))
  }

  lemma CamerasSettle(log: seq<Event>, n: nat, count: int, o: Outcome, spawned: seq<Actor>)
    requires SpawnedOrCleaned(log, n, Cameras(count), o, spawned)
    ensures Propagates(log, n, o) && CleansUpIff(log, n, |log|)
    ensures n < |log| ==> Batch(log[n].call) == 3
  {
    hide Propagates, CleansUpIff, SpawnedOrCleaned;
    SpawningPropagates(log, n, Cameras(count), o, spawned);
    SpawningCleansUp(log, n, Cameras(count), o, spawned, 3);
  }

  method SpawnCameras(w: World, count: int, ghost start: nat, ghost held: seq<Actor>)
    returns (o: Outcome, spawned: seq<Actor>)
    requires Tracks(w.log, start, held)
    modifies w
    ensures Tracks(w.log, start, held + spawned)
    ensures w.settings == old(w.settings)
    ensures old(w.log) <= w.log && SpawnedOrCleaned(w.log, |old(w.log)|, Cameras(count), o, spawned)
    ensures o.Raised? ==> spawned == []
    ensures CleansUpIff(w.log, |old(w.log)|, |w.log|)
    ensures |w.log| > |old(w.log)| ==> Batch(w.log[|old(w.log)|].call) == 3
    ensures Propagates(w.log, |old(w.log)|, o)
  {
    hide Tracks, Propagates, CleansUpIff;
    spawned := [];
    ghost var n := |w.log|;
    assert held + [] == held;
    var index := 0;
    while index < count
      invariant 0 <= index && (index <= count || index == 0)
      invariant Tracks(w.log, start, held + spawned)
      invariant w.settings == old(w.settings)
      invariant old(w.log) <= w.log && |w.log| == n + index && |spawned| == index
      invariant AllSpawned(w.log, n, Cameras(count)[..index]) && spawned == ActorsFrom(n, index)
    {
      var raised := SpawnOne(w, SpawnCamera(index), start, held + spawned);
      if raised {
        o := Raised(|w.log| - 1);
        DestroyAll(w, spawned, start, held);
        spawned := [];
        assert held + [] == held;
        CamerasSettle(w.log, n, count, o, spawned);
        return;
      }
      assert held + spawned + [n + index] == held + (spawned + [n + index]);
      spawned := spawned + [|w.log| - 1];
      index := index + 1;
    }
    o := Returned;
    assert Cameras(count)[..index] == Cameras(count);
    CamerasSettle(w.log, n, count, o, spawned);
  }

  // ---- the tick loops ----

  /** Calls a tick loop makes inside its body. */
  predicate IsTicking(c: Call) {
    c.Tick? || c.WaitForTick? || c.OnTick?
  }

  /** From position n on the log only ticks, and no tick raised. */
  ghost predicate Ticking(log: seq<Event>, n: nat, m: nat) {
    n <= m <= |log| && forall k :: n <= k < m ==> IsTicking(log[k].call) && !log[k].raised
  }

  /** The calls from n up to `end` are ticks; with o = Raised only the last raised. */
  ghost predicate TickedTo(log: seq<Event>, n: nat, end: nat, o: Outcome) {
    && n <= end <= |log|
    && match o
       case Returned => Ticking(log, n, end)
       case Raised(k) => n <= k == end - 1 && Ticking(log, n, k) && IsTicking(log[k].call) && log[k].raised
  }

  /** The sync loop: fetch, switch to synchronous, tick, restore. The restoring call
      comes last whether the ticking ended or raised; only a failed fetch or a failed
      first switch (both before the try) leave it out. A failure to restore replaces
      whatever ended the ticking. */
  ghost predicate SyncRun(log: seq<Event>, n: nat, prior: Settings, fixedDelta: real, o: Outcome) {
    && n < |log| && log[n].call == GetSettings
    && if log[n].raised then |log| == n + 1 && o == Raised(n)
       else
         && n + 1 < |log| && log[n + 1].call == ApplySettings(prior.(sync := true, fixedDelta := Some(fixedDelta)))
         && if log[n + 1].raised then |log| == n + 2 && o == Raised(n + 1)
            else Restored(log, n + 2, |log| - 1, prior, o)
  }

  ghost predicate Restored(log: seq<Event>, n: nat, last: int, prior: Settings, o: Outcome) {
    && n <= last == |log| - 1
    && log[last].call == ApplySettings(prior)
    && (TickedTo(log, n, last, Returned) || (n < last && TickedTo(log, n, last, Raised(last - 1))))
    && if log[last].raised then o == Raised(last) else TickedTo(log, n, last, o)
  }

  /** The exception of a failed tick leaves the loop exactly when the restoring call,
      which is always made, does not raise; otherwise that call's exception does. */
  lemma TickFailureSurvivesIff(log: seq<Event>, n: nat, prior: Settings, fixedDelta: real, o: Outcome, k: nat)
    requires SyncRun(log, n, prior, fixedDelta, o)
    requires n <= k < |log| && IsTicking(log[k].call) && log[k].raised
    ensures log[|log| - 1].call == ApplySettings(prior)
    ensures o == Raised(k) <==> !log[|log| - 1].raised
    ensures log[|log| - 1].raised ==> o == Raised(|log| - 1)
  {
    assert k != n && k != n + 1;
    assert k == |log| - 2;
  }

  /** The async loop: no restoring. */
  ghost predicate AsyncRun(log: seq<Event>, n: nat, prior: Settings, o: Outcome) {
    && n < |log| && log[n].call == GetSettings
    && if log[n].raised then |log| == n + 1 && o == Raised(n)
       else
         && n + 1 < |log| && log[n + 1].call == ApplySettings(prior.(sync := false))
         && if log[n + 1].raised then |log| == n + 2 && o == Raised(n + 1)
            else TickedTo(log, n + 2, |log|, o)
  }

  ghost predicate RestoreFailed(log: seq<Event>, n: nat, prior: Settings) {
    exists k :: n <= k < |log| && log[k] == Event(ApplySettings(prior), true)
  }

  /** `rounds` is how often should_continue answers true before the stop flag is
      seen; the pacing sleep makes no call into the world. */
  method RunSyncLoop(w: World, fixedDelta: real, rounds: nat, hasOnTick: bool,
                     ghost start: nat, ghost held: seq<Actor>) returns (o: Outcome)
    requires Tracks(w.log, start, held)
    modifies w
    ensures Tracks(w.log, start, held)
    ensures old(w.log) <= w.log && SyncRun(w.log, |old(w.log)|, old(w.settings), fixedDelta, o)
    ensures Propagates(w.log, |old(w.log)|, o)
    ensures w.settings == old(w.settings) || RestoreFailed(w.log, |old(w.log)|, old(w.settings))
    // Between the fetch and the restore the world is switched once, to synchronous mode.
    ensures |w.log| > |old(w.log)| + 1 ==>
              w.log[|old(w.log)| + 1].call
              == ApplySettings(Settings(true, Some(fixedDelta), old(w.settings).maxSubstep, old(w.settings).maxSubsteps))
  {
    hide Tracks, Propagates, TickedTo, RestoreFailed, SyncRun;
    ghost var log := w.log;
    ghost var prior := w.settings;
    var raised := Quietly(w, GetSettings, start, held);
    if raised {
      FetchOrSwitchFailed(log, w.log, prior, fixedDelta);
      return Raised(|w.log| - 1);
    }
    var settings := w.settings;
    var prevSync, prevFixedDelta := settings.sync, settings.fixedDelta;
    settings := settings.(sync := true, fixedDelta := Some(fixedDelta));
    raised := Quietly(w, ApplySettings(settings), start, held);
    if raised {
      FetchOrSwitchFailed(log, w.log, prior, fixedDelta);
      return Raised(|w.log| - 1);
    }
    ghost var switched := w.log;
    o := Rounds(w, Tick, rounds, hasOnTick, start, held);
    ghost var ticked, ended := w.log, o;
    settings := settings.(sync := prevSync, fixedDelta := prevFixedDelta);
    assert settings == prior;
    raised := Quietly(w, ApplySettings(settings), start, held);
    if raised { o := Raised(|w.log| - 1); }
    RestoringIsLast(log, ticked, w.log, prior, fixedDelta, ended, raised);
  }

  lemma FetchOrSwitchFailed(before: seq<Event>, log: seq<Event>, prior: Settings, fixedDelta: real)
    requires var switch := ApplySettings(prior.(sync := true, fixedDelta := Some(fixedDelta)));
             log == before + [Event(GetSettings, true)] || log == before + [Event(GetSettings, false), Event(switch, true)]
    ensures before <= log && SyncRun(log, |before|, prior, fixedDelta, Raised(|log| - 1))
    ensures Propagates(log, |before|, Raised(|log| - 1))
  {
  }

  lemma RestoringIsLast(before: seq<Event>, ticked: seq<Event>, log: seq<Event>, prior: Settings, fixedDelta: real,
                        ended: Outcome, raised: bool)
    requires var switch := ApplySettings(prior.(sync := true, fixedDelta := Some(fixedDelta)));
             before + [Event(GetSettings, false), Event(switch, false)] <= ticked
    requires TickedTo(ticked, |before| + 2, |ticked|, ended) && log == ticked + [Event(ApplySettings(prior), raised)]
    ensures var o := if raised then Raised(|log| - 1) else ended;
            SyncRun(log, |before|, prior, fixedDelta, o) && Propagates(log, |before|, o)
    ensures raised ==> RestoreFailed(log, |before|, prior)
  {
    var n := |before|;
    assert forall k :: 0 <= k < |ticked| ==> log[k] == ticked[k];
    assert log[|log| - 1] == Event(ApplySettings(prior), raised);
    assert ticked[n] == Event(GetSettings, false);
    assert Restored(log, n + 2, |log| - 1, prior, if raised then Raised(|log| - 1) else ended);
    SyncRunPropagates(log, n, prior, fixedDelta, if raised then Raised(|log| - 1) else ended);
  }

  /** A failed tick, switch or restore is the exception that leaves, and the world is
      switched to nothing but synchronous mode at the given step. */
  lemma SyncRunPropagates(log: seq<Event>, n: nat, prior: Settings, fixedDelta: real, o: Outcome)
    requires SyncRun(log, n, prior, fixedDelta, o)
    ensures Propagates(log, n, o)
    ensures |log| > n + 1 ==>
              log[n + 1].call == ApplySettings(Settings(true, Some(fixedDelta), prior.maxSubstep, prior.maxSubsteps))
  {
  }

  /** A call that neither spawns nor destroys. */
  method Quietly(w: World, c: Call, ghost start: nat, ghost held: seq<Actor>) returns (raised: bool)
    requires !IsSpawn(c) && !c.Destroy? && Tracks(w.log, start, held)
    modifies w
    ensures w.log == old(w.log) + [Event(c, raised)]
    ensures w.settings == if c.ApplySettings? && !raised then c.settings else old(w.settings)
    ensures Tracks(w.log, start, held)
  {
    ghost var log := w.log;
    raised := w.Do(c);
    TracksOther(log, start, held, Event(c, raised));
  }

  /** A number of rounds, each ticking the world and then running the callback if
      there is one; the first failure ends them. */
  method Rounds(w: World, tick: Call, rounds: nat, hasOnTick: bool, ghost start: nat, ghost held: seq<Actor>)
    returns (o: Outcome)
    requires IsTicking(tick) && Tracks(w.log, start, held)
    modifies w
    ensures Tracks(w.log, start, held)
    ensures w.settings == old(w.settings)
    ensures old(w.log) <= w.log
    ensures TickedTo(w.log, |old(w.log)|, |w.log|, o)
    ensures o.Returned? ==> |w.log| == |old(w.log)| + rounds * (if hasOnTick then 2 else 1)
  {
    hide Tracks;
    var i := 0;
    while i < rounds
      invariant 0 <= i <= rounds
      invariant Tracks(w.log, start, held)
      invariant w.settings == old(w.settings)
      invariant old(w.log) <= w.log && Ticking(w.log, |old(w.log)|, |w.log|)
      invariant |w.log| == |old(w.log)| + i * (if hasOnTick then 2 else 1)
    {
      var raised := Quietly(w, tick, start, held);
      if raised { return Raised(|w.log| - 1); }
      if hasOnTick {
        raised := Quietly(w, OnTick, start, held);
        if raised { return Raised(|w.log| - 1); }
      }
      i := i + 1;
    }
    o := Returned;
  }

  /** The async loop: switch to asynchronous and tick; nothing is restored. */
  method RunAsyncLoop(w: World, rounds: nat, hasOnTick: bool, ghost start: nat, ghost held: seq<Actor>) returns (o: Outcome)
    requires Tracks(w.log, start, held)
    modifies w
    ensures Tracks(w.log, start, held)
    ensures old(w.log) <= w.log && AsyncRun(w.log, |old(w.log)|, old(w.settings), o)
    ensures Propagates(w.log, |old(w.log)|, o)
    ensures w.settings == old(w.settings) || w.settings == old(w.settings).(sync := false)
    ensures o.Returned? ==> w.settings == old(w.settings).(sync := false)
  {
    hide Tracks;
    var raised := Quietly(w, GetSettings, start, held);
    if raised { return Raised(|w.log| - 1); }
    var settings := w.settings.(sync := false);
    raised := Quietly(w, ApplySettings(settings), start, held);
    if raised { return Raised(|w.log| - 1); }
    o := Rounds(w, WaitForTick, rounds, hasOnTick, start, held);
  }

  // ---- the whole run ----

  /** How the finally block ends the log: brake first (if there is an ego), then one
      Destroy per sensor in order, then the ego, each tried whatever the others do. */
  ghost predicate TornDown(log: seq<Event>, n: nat, ego: Option<Actor>, sensors: seq<Actor>) {
    match ego
    case None => Destroyed(log, n, sensors)
    case Some(e) =>
      && n < |log| && log[n].call == Brake(e)
      && Destroyed(log, n + 1, sensors + [e])
  }

  lemma RestoreFailedEarlier(log: seq<Event>, m: nat, n: nat, prior: Settings)
    requires n <= m
    ensures RestoreFailed(log, m, prior) ==> RestoreFailed(log, n, prior)
  {
  }

  lemma RestoreFailedLater(before: seq<Event>, log: seq<Event>, n: nat, prior: Settings)
    requires before <= log
    ensures RestoreFailed(before, n, prior) ==> RestoreFailed(log, n, prior)
  {
    if RestoreFailed(before, n, prior) {
      var k :| n <= k < |before| && before[k] == Event(ApplySettings(prior), true);
      assert log[k] == before[k];
    }
  }

  lemma TickedIsDriving(log: seq<Event>, n: nat, end: nat, o: Outcome)
    requires TickedTo(log, n, end, o)
    ensures forall k :: n <= k < end ==> IsTicking(log[k].call)
  {
  }

  lemma SyncRunIsDriving(log: seq<Event>, n: nat, prior: Settings, fixedDelta: real, o: Outcome)
    requires SyncRun(log, n, prior, fixedDelta, o)
    ensures Driving(log, n)
  {
    if !log[n].raised && !log[n + 1].raised {
      var last := |log| - 1;
      if TickedTo(log, n + 2, last, Returned) {
        TickedIsDriving(log, n + 2, last, Returned);
      } else {
        TickedIsDriving(log, n + 2, last, Raised(last - 1));
      }
    }
  }

  lemma AsyncRunIsDriving(log: seq<Event>, n: nat, prior: Settings, o: Outcome)
    requires AsyncRun(log, n, prior, o)
    ensures Driving(log, n)
  {
    if !log[n].raised && !log[n + 1].raised {
      TickedIsDriving(log, n + 2, |log|, o);
    }
  }

  /** The loop main picks by --async-mode; it passes no on_tick callback. */
  method RunLoop(w: World, asyncMode: bool, fixedDelta: real, rounds: nat, ghost start: nat, ghost held: seq<Actor>)
    returns (o: Outcome)
    requires Tracks(w.log, start, held)
    modifies w
    ensures Tracks(w.log, start, held)
    ensures old(w.log) <= w.log && Propagates(w.log, |old(w.log)|, o) && Driving(w.log, |old(w.log)|)
    ensures var n := |old(w.log)|;
            if asyncMode then AsyncRun(w.log, n, old(w.settings), o) else SyncRun(w.log, n, old(w.settings), fixedDelta, o)
    ensures !asyncMode ==> w.settings == old(w.settings) || RestoreFailed(w.log, |old(w.log)|, old(w.settings))
  {
    hide Tracks, AsyncRun, SyncRun, Propagates, Driving;
    if asyncMode {
      o := RunAsyncLoop(w, rounds, false, start, held);
      AsyncRunIsDriving(w.log, |old(w.log)|, old(w.settings), o);
    } else {
      o := RunSyncLoop(w, fixedDelta, rounds, false, start, held);
      SyncRunIsDriving(w.log, |old(w.log)|, old(w.settings), fixedDelta, o);
    }
  }

  function Handles(ego: Option<Actor>, sensors: seq<Actor>): seq<Actor> {
    if ego.Some? then [ego.value] + sensors else sensors
  }

  /** The sensors, then the cameras appended to the same teardown list. */
  method SpawnFleet(w: World, cameras: int, ghost start: nat, ghost held: seq<Actor>)
    returns (o: Outcome, sensors: seq<Actor>)
    requires Tracks(w.log, start, held)
    modifies w
    ensures Tracks(w.log, start, held + sensors)
    ensures old(w.log) <= w.log && Propagates(w.log, |old(w.log)|, o)
    ensures w.settings == old(w.settings)
    ensures CleansUpIff(w.log, |old(w.log)|, |w.log|) && |w.log| > |old(w.log)|
    ensures Batch(w.log[|old(w.log)|].call) == 2
    ensures o.Returned? ==> sensors == ActorsFrom(|old(w.log)|, |RIG| + |Cameras(cameras)|)
  {
    hide Tracks, Propagates, CleansUpIff;
    o, sensors := SpawnSensors(w, start, held);
    if o.Returned? {
      ghost var log := w.log;
      var spawned;
      o, spawned := SpawnCameras(w, cameras, start, held + sensors);
      PropagatesAfter(log, w.log, |old(w.log)|, o);
      CleansUpAfter(log, w.log, |old(w.log)|);
      assert held + sensors + spawned == held + (sensors + spawned);
      sensors := sensors + spawned;
    }
  }

  method AttachAndLoop(w: World, cameras: int, asyncMode: bool, fixedDelta: real, rounds: nat,
                       ghost start: nat, ghost held: seq<Actor>) returns (o: Outcome, sensors: seq<Actor>)
    requires Tracks(w.log, start, held)
    modifies w
    ensures Tracks(w.log, start, held + sensors)
    ensures old(w.log) <= w.log && Propagates(w.log, |old(w.log)|, o)
    ensures o.Returned? ==> sensors == ActorsFrom(|old(w.log)|, |RIG| + |Cameras(cameras)|)
    ensures CleansUpIff(w.log, |old(w.log)|, |w.log|) && |w.log| > |old(w.log)|
    ensures Batch(w.log[|old(w.log)|].call) == 2
    ensures !asyncMode ==> w.settings == old(w.settings) || RestoreFailed(w.log, |old(w.log)|, old(w.settings))
  {
    hide Tracks, RestoreFailed, Propagates, AsyncRun, SyncRun, CleansUpIff, Batch;
    o, sensors := SpawnFleet(w, cameras, start, held);
    if o.Returned? {
      ghost var log := w.log;
      o := RunLoop(w, asyncMode, fixedDelta, rounds, start, held + sensors);
      RestoreFailedEarlier(w.log, |log|, |old(w.log)|, old(w.settings));
      PropagatesAfter(log, w.log, |old(w.log)|, o);
      DrivingCleansNothing(w.log, |log|);
      CleansUpAfter(log, w.log, |old(w.log)|);
    }
  }

  /** The body of main's try block, filling in the handles it has obtained so far. */
  method TryBlock(w: World, cameras: int, asyncMode: bool, fixedDelta: real, rounds: nat, ghost start: nat)
    returns (o: Outcome, ego: Option<Actor>, sensors: seq<Actor>)
    requires start == |w.log| && DestroysLookBack(w.log)
    modifies w
    ensures Tracks(w.log, start, Handles(ego, sensors))
    ensures old(w.log) <= w.log && start < |w.log| && w.log[start].call == SpawnEgo
    ensures Propagates(w.log, start, o)
    ensures ego == if w.log[start].raised then None else Some(start)
    ensures ego.None? ==> sensors == []
    ensures CleansUpIff(w.log, start, |w.log|)
    ensures o.Returned? ==> sensors == ActorsFrom(start + 1, |RIG| + |Cameras(cameras)|)
    ensures !asyncMode ==> w.settings == old(w.settings) || RestoreFailed(w.log, start, old(w.settings))
  {
    hide *;
    TracksNothing(w.log);
    EgoIsSpawned();
    ego, sensors := None, [];
    ghost var before := w.log;
    var raised := SpawnOne(w, SpawnEgo, start, []);
    ghost var log := w.log;
    EgoCallPropagates(before, raised);
    if raised {
      o := Raised(|w.log| - 1);
      HandlesOf(start, []);
      EgoCleansNothing(before, raised);
    } else {
      ego := Some(|w.log| - 1);
      assert [] + [start] == [start];
      o, sensors := AttachAndLoop(w, cameras, asyncMode, fixedDelta, rounds, start, [start]);
      HandlesOf(start, sensors);
      PropagatesAfter(log, w.log, start, o);
      RestoreFailedEarlier(w.log, |log|, start, old(w.settings));
      assert log[start] == w.log[start];
      EgoCleansNothing(before, raised);
      EgoIsItsOwnBatch(log, w.log, start);
      CleansUpAfter(log, w.log, start);
    }
  }

  lemma EgoCleansNothing(log: seq<Event>, raised: bool)
    ensures CleansUpIff(log + [Event(SpawnEgo, raised)], |log|, |log| + 1)
  {
    assert !EarlyDestroy(log + [Event(SpawnEgo, raised)], |log|, |log| + 1);
  }

  lemma EgoIsItsOwnBatch(before: seq<Event>, log: seq<Event>, n: nat)
    requires |before| == n + 1 < |log| && before <= log && before[n].call == SpawnEgo && Batch(log[n + 1].call) == 2
    ensures NewBatch(log, n + 1)
  {
  }

  lemma EgoIsSpawned()
    ensures IsSpawn(SpawnEgo)
  {
  }

  lemma EgoCallPropagates(log: seq<Event>, raised: bool)
    ensures Propagates(log + [Event(SpawnEgo, raised)], |log|, if raised then Raised(|log|) else Returned)
  {
  }

  lemma HandlesOf(ego: Actor, sensors: seq<Actor>)
    ensures Handles(Some(ego), sensors) == [ego] + sensors && Handles(None, []) == []
  {
  }

  lemma TracksNothing(log: seq<Event>)
    requires DestroysLookBack(log)
    ensures Tracks(log, |log|, [])
  {
  }

  lemma DestroyedIsTeardown(log: seq<Event>, n: nat, actors: seq<Actor>)
    requires Destroyed(log, n, actors)
    ensures forall k :: n <= k < |log| ==> IsTeardown(log[k].call)
  {
    forall k | n <= k < |log| ensures IsTeardown(log[k].call) {
      assert log[n + (k - n)].call == Destroy(actors[k - n]);
    }
  }

  lemma DestroyedThen(before: seq<Event>, log: seq<Event>, n: nat, first: seq<Actor>, second: seq<Actor>)
    requires before <= log && Destroyed(before, n, first) && Destroyed(log, |before|, second)
    ensures Destroyed(log, n, first + second)
  {
    forall i | 0 <= i < |first + second| ensures log[n + i].call == Destroy((first + second)[i]) {
      if i < |first| {
        assert log[n + i] == before[n + i];
      } else {
        assert log[|before| + (i - |first|)].call == Destroy(second[i - |first|]);
      }
    }
  }

  /** main's finally block: brake, sensors, ego. */
  method TearDown(w: World, ego: Option<Actor>, sensors: seq<Actor>, ghost start: nat)
    requires Tracks(w.log, start, Handles(ego, sensors))
    modifies w
    ensures Tracks(w.log, start, [])
    ensures w.settings == old(w.settings)
    ensures old(w.log) <= w.log && TornDown(w.log, |old(w.log)|, ego, sensors)
    ensures forall k :: |old(w.log)| <= k < |w.log| ==> IsTeardown(w.log[k].call)
  {
    hide Tracks;
    ghost var kept := if ego.Some? then [ego.value] else [];
    assert Handles(ego, sensors) == kept + sensors;
    if ego.Some? {
      var swallowed := Quietly(w, Brake(ego.value), start, kept + sensors);
    }
    ghost var n := |w.log|;
    DestroyAll(w, sensors, start, kept);
    ghost var log := w.log;
    if ego.Some? {
      assert [] + kept == kept;
      DestroyAll(w, [ego.value], start, []);
      DestroyedThen(log, w.log, n, sensors, [ego.value]);
      DestroyedIsTeardown(w.log, n, sensors + [ego.value]);
    } else {
      DestroyedIsTeardown(w.log, n, sensors);
    }
  }

  /** One run of the runner, for every choice of which calls raise. Every actor
      spawned has exactly one destroy attempt; the teardown brakes first and destroys
      the ego last; teardown failures mask nothing; and a sync run leaves the world's
      settings as it found them unless the restoring call itself raised. */
  method Run(w: World, cameras: int, asyncMode: bool, fixedDelta: real, rounds: nat)
    returns (o: Outcome, ghost sensors: seq<Actor>, ghost teardown: nat)
    requires DestroysLookBack(w.log)
    modifies w
    ensures old(w.log) <= w.log && |old(w.log)| < teardown <= |w.log|
    ensures forall a :: |old(w.log)| <= a < |w.log| && Spawns(w.log[a]) ==> Attempts(w.log, a) == 1
    ensures w.log[|old(w.log)|].call == SpawnEgo
    ensures TornDown(w.log, teardown, if w.log[|old(w.log)|].raised then None else Some(|old(w.log)|), sensors)
    ensures Propagates(w.log, |old(w.log)|, o)
    ensures o.Returned? ==> sensors == ActorsFrom(|old(w.log)| + 1, |RIG| + |Cameras(cameras)|)
    // A sensor is destroyed before the ego is braked exactly when a spawn failed after
    // another of its batch had succeeded.
    ensures CleansUpIff(w.log, |old(w.log)|, teardown)
    // The run raises exactly when a call other than a brake or a destroy raised, and the
    // ego, once spawned, is braked first and destroyed last.
    ensures o.Returned? <==> forall k :: |old(w.log)| <= k < |w.log| && w.log[k].raised ==>
              w.log[k].call.Brake? || w.log[k].call.Destroy?
    ensures !w.log[|old(w.log)|].raised ==>
              && w.log[teardown].call == Brake(|old(w.log)|) && w.log[|w.log| - 1].call == Destroy(|old(w.log)|)
              && forall k :: teardown < k < |w.log| ==> w.log[k].call.Destroy?
    ensures !asyncMode ==> w.settings == old(w.settings) || RestoreFailed(w.log, |old(w.log)|, old(w.settings))
  {
    hide Propagates, TornDown, RestoreFailed, CleansUpIff;
    var ego, handles;
    o, ego, handles := TryBlock(w, cameras, asyncMode, fixedDelta, rounds, |w.log|);
    ghost var log := w.log;
    TearDown(w, ego, handles, |old(w.log)|);
    sensors, teardown := handles, |log|;
    TeardownPropagates(log, w.log, |old(w.log)|, o);
    CleansUpPrefix(log, w.log, |old(w.log)|);
    RestoreFailedLater(log, w.log, |old(w.log)|, old(w.settings));
    RaisesIff(w.log, |old(w.log)|, o);
    BrakedFirstDestroyedLast(w.log, teardown, ego, sensors);
  }

  lemma RaisesIff(log: seq<Event>, n: nat, o: Outcome)
    requires Propagates(log, n, o)
    ensures o.Returned? <==> forall k :: n <= k < |log| && log[k].raised ==> log[k].call.Brake? || log[k].call.Destroy?
  {
  }

  lemma BrakedFirstDestroyedLast(log: seq<Event>, n: nat, ego: Option<Actor>, sensors: seq<Actor>)
    requires n <= |log| && TornDown(log, n, ego, sensors)
    ensures ego.Some? ==> n < |log| && log[n].call == Brake(ego.value) && log[|log| - 1].call == Destroy(ego.value)
    ensures ego.Some? ==> forall k :: n < k < |log| ==> log[k].call.Destroy?
  {
    if ego.Some? {
      var all := sensors + [ego.value];
      assert log[n + 1 + |sensors|].call == Destroy(all[|sensors|]);
      forall k | n < k < |log| ensures log[k].call.Destroy? {
        assert log[n + 1 + (k - n - 1)].call == Destroy(all[k - n - 1]);
      }
    }
  }
}
