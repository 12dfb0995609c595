/** The arming node: callbacks that fill deques, a driver that polls a trimmed deque
    until a condition holds or a deadline passes, and the engage sequence. */
module Arming {
  /** A callback, with the monotonic clock it read. */
  datatype Message =
    | KinematicState(at: real)
    | ControlCmd(at: real, velocity: real)
    | OperationMode(mode: int, controlEnabled: bool)

  /** One pass of a wait loop: the clock read against the deadline, the callbacks run
      by the spin, and the clock read after it. */
  datatype Poll = Poll(check: real, messages: seq<Message>, now: real)

  /** Everything the node will ever see, poll by poll. */
  type Tape = nat -> Poll

  datatype Topic = Localized | Gated

  const AUTONOMOUS := 2
  const LOCALIZED_WINDOW_S := 5.0
  const LOCALIZED_MIN_HZ := 5.0
  const CONTROL_CMD_WINDOW_S := 3.0
  const CONTROL_CMD_MIN_HZ := 5.0
  const CMD_HISTORY := 4000

  // ---- the clock ----

  predicate StampAfter(m: Message, t: real) {
    !m.OperationMode? ==> t <= m.at
  }

  predicate StampBefore(m: Message, t: real) {
    !m.OperationMode? ==> m.at <= t
  }

  ghost predicate Orderly(p: Poll) {
    && p.check <= p.now
    && forall m :: m in p.messages ==> StampAfter(m, p.check) && StampBefore(m, p.now)
  }

  /** Time does not run backward, and passes every deadline. */
  ghost predicate MonotonicClock(tape: Tape) {
    && (forall k :: Orderly(tape(k)))
    && (forall i, j :: i < j ==> tape(i).now <= tape(j).check)
  }

  ghost predicate ClockAdvances(tape: Tape) {
    forall t: real :: PassedEventually(tape, t)
  }

  ghost predicate PassedEventually(tape: Tape, t: real) {
    exists k :: tape(k).check >= t
  }

  // ---- the full record ----

  function StampsOf(ms: seq<Message>, topic: Topic): seq<real> {
    if ms == [] then []
    else
      var last := ms[|ms| - 1];
      StampsOf(ms[..|ms| - 1], topic)
      + if (topic == Localized && last.KinematicState?) || (topic == Gated && last.ControlCmd?) then [last.at] else []
  }

  function VelocitiesOf(ms: seq<Message>): seq<real> {
    if ms == [] then []
    else VelocitiesOf(ms[..|ms| - 1]) + if ms[|ms| - 1].ControlCmd? then [ms[|ms| - 1].velocity] else []
  }

  function ModeAfter(autonomous: bool, ms: seq<Message>): bool {
    if ms == [] then autonomous
    else
      var last := ms[|ms| - 1];
      if last.OperationMode? then last.mode == AUTONOMOUS else ModeAfter(autonomous, ms[..|ms| - 1])
  }

  /** The stamps of every callback of a topic in polls i..j. */
  function Stamps(tape: Tape, topic: Topic, i: nat, j: nat): seq<real> {
    if j <= i then [] else Stamps(tape, topic, i, j - 1) + StampsOf(tape(j - 1).messages, topic)
  }

  function Velocities(tape: Tape, i: nat, j: nat): seq<real> {
    if j <= i then [] else Velocities(tape, i, j - 1) + VelocitiesOf(tape(j - 1).messages)
  }

  /** Whether the latest mode callback of polls i..j said AUTONOMOUS. */
  function LatestMode(tape: Tape, i: nat, j: nat): bool {
    if j <= i then false else ModeAfter(LatestMode(tape, i, j - 1), tape(j - 1).messages)
  }

  // ---- the pure decisions ----

  function RecentCount(ts: seq<real>, now: real, windowS: real): nat {
    if ts == [] then 0
    else RecentCount(ts[..|ts| - 1], now, windowS) + if 0.0 <= now - ts[|ts| - 1] <= windowS then 1 else 0
  }

  predicate SustainedRateOk(ts: seq<real>, now: real, windowS: real, minHz: real) {
    RecentCount(ts, now, windowS) as real >= minHz * windowS
  }

  predicate ArmedOk(autonomous: bool, ts: seq<real>, now: real, windowS: real, minHz: real) {
    autonomous && SustainedRateOk(ts, now, windowS, minHz)
  }

  ghost predicate AllOlder(ts: seq<real>, now: real, windowS: real) {
    forall t :: t in ts ==> now - t > windowS
  }

  /** Stamps that fell out of the window count for nothing. */
  lemma {:induction false} OldStampsDoNotCount(old_: seq<real>, ts: seq<real>, now: real, windowS: real)
    requires AllOlder(old_, now, windowS)
    ensures RecentCount(old_ + ts, now, windowS) == RecentCount(ts, now, windowS)
  {
    if ts != [] {
      OldStampsDoNotCount(old_, ts[..|ts| - 1], now, windowS);
      assert (old_ + ts)[..|old_ + ts| - 1] == old_ + ts[..|ts| - 1];
    } else if old_ != [] {
      var shorter := old_[..|old_| - 1];
      forall t | t in shorter ensures t in old_ {
      }
      OldStampsDoNotCount(shorter, ts, now, windowS);
      assert (old_ + ts)[..|old_ + ts| - 1] == shorter + ts;
      assert (old_ + ts)[|old_ + ts| - 1] in old_;
    }
  }

  type Condition = (bool, seq<real>, real) -> bool

  /** A condition that answers alike on a trimmed deque and on the full record. */
  ghost predicate BlindToTrimming(isReady: Condition, windowS: real) {
    forall autonomous, dropped, ts, now :: AllOlder(dropped, now, windowS) ==>
      isReady(autonomous, dropped + ts, now) == isReady(autonomous, ts, now)
  }

  function LocalizedCondition(): Condition {
    (autonomous, ts, now) => SustainedRateOk(ts, now, LOCALIZED_WINDOW_S, LOCALIZED_MIN_HZ)
  }

  function ArmedCondition(): Condition {
    (autonomous, ts, now) => ArmedOk(autonomous, ts, now, CONTROL_CMD_WINDOW_S, CONTROL_CMD_MIN_HZ)
  }

  lemma ConditionsAreBlindToTrimming()
    ensures BlindToTrimming(LocalizedCondition(), LOCALIZED_WINDOW_S)
    ensures BlindToTrimming(ArmedCondition(), CONTROL_CMD_WINDOW_S)
  {
    forall dropped: seq<real>, ts: seq<real>, now: real, windowS: real | AllOlder(dropped, now, windowS)
      ensures RecentCount(dropped + ts, now, windowS) == RecentCount(ts, now, windowS)
    {
      OldStampsDoNotCount(dropped, ts, now, windowS);
    }
  }

  // ---- what a wait decides ----

  /** Poll k is reached before the deadline. */
  ghost predicate InTime(tape: Tape, from: nat, k: nat, deadline: real) {
    from <= k && forall j :: from <= j <= k ==> tape(j).check < deadline
  }

  /** The condition on the full record since poll r, as of the end of poll k. */
  predicate ReadyAt(tape: Tape, topic: Topic, r: nat, modeSince: nat, k: nat, isReady: Condition) {
    isReady(LatestMode(tape, modeSince, k + 1), Stamps(tape, topic, r, k + 1), tape(k).now)
  }

  /** At the end of poll k, 25 poses of all those ever received are at most 5 s old. */
  predicate LocalizedAt(tape: Tape, k: nat) {
    SustainedRateOk(Stamps(tape, Localized, 0, k + 1), tape(k).now, LOCALIZED_WINDOW_S, LOCALIZED_MIN_HZ)
  }

  /** At the end of poll k, the latest mode since poll r is AUTONOMOUS and 15 gated
      commands of those received since poll r are at most 3 s old. */
  predicate ArmedAt(tape: Tape, r: nat, k: nat) {
    ArmedOk(LatestMode(tape, r, k + 1), Stamps(tape, Gated, r, k + 1), tape(k).now, CONTROL_CMD_WINDOW_S, CONTROL_CMD_MIN_HZ)
  }

  /** The verdict of a localization wait that starts at poll p, on everything seen
      since the node was built. */
  ghost predicate Localizable(tape: Tape, p: nat, deadline: real) {
    exists k :: InTime(tape, p, k, deadline) && LocalizedAt(tape, k)
  }

  /** The verdict of a wait that starts at poll r on nothing but what follows. */
  ghost predicate Armable(tape: Tape, r: nat, deadline: real) {
    exists k :: InTime(tape, r, k, deadline) && ArmedAt(tape, r, k)
  }

  lemma SlicesAgree(a: Tape, b: Tape, topic: Topic, i: nat, j: nat)
    requires forall k :: i <= k ==> a(k) == b(k)
    ensures Stamps(a, topic, i, j) == Stamps(b, topic, i, j)
    ensures LatestMode(a, i, j) == LatestMode(b, i, j)
    decreases j
  {
    if i < j {
      SlicesAgree(a, b, topic, i, j - 1);
    }
  }

  /** Nothing before the reset can change the verdict. */
  lemma VerdictIgnoresThePast(a: Tape, b: Tape, r: nat, deadline: real)
    requires forall k :: r <= k ==> a(k) == b(k)
    ensures Armable(a, r, deadline) ==> Armable(b, r, deadline)
  {
    if Armable(a, r, deadline) {
      var k: nat :| InTime(a, r, k, deadline) && ArmedAt(a, r, k);
      SlicesAgree(a, b, Gated, r, k + 1);
      assert InTime(b, r, k, deadline);
      assert ArmedAt(b, r, k);
    }
  }

  lemma {:induction false} AtMostAll(ts: seq<real>, now: real, windowS: real)
    ensures RecentCount(ts, now, windowS) <= |ts|
  {
    if ts != [] {
      AtMostAll(ts[..|ts| - 1], now, windowS);
    }
  }

  /** A stack that sends fewer than 15 gated commands after the engage never arms. */
  lemma SilenceNeverArms(tape: Tape, r: nat, deadline: real)
    requires forall k :: r <= k ==> |Stamps(tape, Gated, r, k)| < 15
    ensures !Armable(tape, r, deadline)
  {
    forall k: nat | InTime(tape, r, k, deadline) ensures !ArmedAt(tape, r, k) {
      AtMostAll(Stamps(tape, Gated, r, k + 1), tape(k).now, CONTROL_CMD_WINDOW_S);
    }
  }

  // ---- the decision on the tape itself ----

  predicate OfTopic(m: Message, topic: Topic) {
    if topic == Localized then m.KinematicState? else m.ControlCmd?
  }

  predicate Recent(m: Message, topic: Topic, now: real, windowS: real) {
    OfTopic(m, topic) && 0.0 <= now - m.at <= windowS
  }

  /** The callbacks of polls i..j, by poll and position, that fall in the window. */
  ghost function RecentOn(tape: Tape, topic: Topic, i: nat, j: nat, now: real, windowS: real): set<(int, int)> {
    set p, n | i <= p < j && 0 <= n < |tape(p).messages| && Recent(tape(p).messages[n], topic, now, windowS) :: (p, n)
  }

  /** The count is the number of stamps between now - window and now, ends included. */
  lemma {:induction false} RecentCountIsCardinality(ts: seq<real>, now: real, windowS: real)
    ensures RecentCount(ts, now, windowS) == |set i | 0 <= i < |ts| && 0.0 <= now - ts[i] <= windowS|
  {
    var all := set i | 0 <= i < |ts| && 0.0 <= now - ts[i] <= windowS;
    if ts != [] {
      var n := |ts| - 1;
      var before := set i | 0 <= i < n && 0.0 <= now - ts[..n][i] <= windowS;
      RecentCountIsCardinality(ts[..n], now, windowS);
      assert before == set i | 0 <= i < |ts[..n]| && 0.0 <= now - ts[..n][i] <= windowS;
      assert all == if 0.0 <= now - ts[n] <= windowS then before + {n} else before;
    }
  }

  /** The same over polls i..p and the first n callbacks of poll p. */
  ghost function RecentUpTo(tape: Tape, topic: Topic, i: nat, p: nat, n: nat, now: real, windowS: real): set<(int, int)> {
    set q, m | i <= q <= p && 0 <= m < |tape(q).messages| && (q < p || m < n)
               && Recent(tape(q).messages[m], topic, now, windowS) :: (q, m)
  }

  lemma RecentUpToNext(tape: Tape, topic: Topic, i: nat, p: nat, n: nat, now: real, windowS: real)
    requires i <= p && n < |tape(p).messages|
    ensures var before := RecentUpTo(tape, topic, i, p, n, now, windowS);
            && (p, n) !in before
            && RecentUpTo(tape, topic, i, p, n + 1, now, windowS)
               == if Recent(tape(p).messages[n], topic, now, windowS) then before + {(p, n)} else before
  {
    hide Recent;
  }

  lemma RecentUpToPoll(tape: Tape, topic: Topic, i: nat, p: nat, now: real, windowS: real)
    requires i < p
    ensures RecentUpTo(tape, topic, i, p, 0, now, windowS)
         == RecentUpTo(tape, topic, i, p - 1, |tape(p - 1).messages|, now, windowS)
  {
    hide Recent;
  }

  lemma OneMoreStamp(ms: seq<Message>, n: nat, topic: Topic, now: real, windowS: real, before: seq<real>)
    requires n < |ms|
    ensures RecentCount(before + StampsOf(ms[..n + 1], topic), now, windowS)
         == RecentCount(before + StampsOf(ms[..n], topic), now, windowS)
          + if Recent(ms[n], topic, now, windowS) then 1 else 0
  {
    assert ms[..n + 1][..n] == ms[..n];
    var stamps := before + StampsOf(ms[..n], topic);
    if OfTopic(ms[n], topic) {
      assert before + StampsOf(ms[..n + 1], topic) == stamps + [ms[n].at];
      assert (stamps + [ms[n].at])[..|stamps|] == stamps;
    } else {
      assert before + StampsOf(ms[..n + 1], topic) == stamps;
    }
  }

  lemma {:induction false} RecentStamps(tape: Tape, topic: Topic, i: nat, p: nat, n: nat, now: real, windowS: real)
    requires i <= p && n <= |tape(p).messages|
    ensures RecentCount(Stamps(tape, topic, i, p) + StampsOf(tape(p).messages[..n], topic), now, windowS)
         == |RecentUpTo(tape, topic, i, p, n, now, windowS)|
    decreases p, n
  {
    hide RecentCount, RecentUpTo, StampsOf, Recent;
    if n > 0 {
      RecentStamps(tape, topic, i, p, n - 1, now, windowS);
      RecentUpToNext(tape, topic, i, p, n - 1, now, windowS);
      OneMoreStamp(tape(p).messages, n - 1, topic, now, windowS, Stamps(tape, topic, i, p));
    } else {
      NoStamps(tape(p).messages, topic, now, windowS);
      assert Stamps(tape, topic, i, p) + [] == Stamps(tape, topic, i, p);
      if i < p {
        var ms := tape(p - 1).messages;
        RecentStamps(tape, topic, i, p - 1, |ms|, now, windowS);
        RecentUpToPoll(tape, topic, i, p, now, windowS);
        assert ms[..|ms|] == ms;
      } else {
        NothingRecent(tape, topic, i, now, windowS);
      }
    }
  }

  lemma NoStamps(ms: seq<Message>, topic: Topic, now: real, windowS: real)
    ensures StampsOf(ms[..0], topic) == [] && RecentCount([], now, windowS) == 0
  {
  }

  lemma NothingRecent(tape: Tape, topic: Topic, i: nat, now: real, windowS: real)
    ensures RecentUpTo(tape, topic, i, i, 0, now, windowS) == {}
  {
  }

  /** The count over the full record is the number of callbacks of the topic, in those
      polls, that fall in the window. */
  lemma RecentOnTape(tape: Tape, topic: Topic, i: nat, j: nat, now: real, windowS: real)
    ensures RecentCount(Stamps(tape, topic, i, j), now, windowS) == |RecentOn(tape, topic, i, j, now, windowS)|
  {
    if i < j {
      var ms := tape(j - 1).messages;
      RecentStamps(tape, topic, i, j - 1, |ms|, now, windowS);
      assert ms[..|ms|] == ms;
      assert RecentUpTo(tape, topic, i, j - 1, |ms|, now, windowS) == RecentOn(tape, topic, i, j, now, windowS);
    } else {
      assert RecentOn(tape, topic, i, j, now, windowS) == {};
    }
  }

  /** The last operation-mode callback of polls i..j is number n of poll p. */
  ghost predicate IsLatestMode(tape: Tape, i: nat, j: nat, p: nat, n: nat) {
    && i <= p < j && n < |tape(p).messages| && tape(p).messages[n].OperationMode?
    && (forall m :: n < m < |tape(p).messages| ==> !tape(p).messages[m].OperationMode?)
    && forall q, m :: p < q < j && 0 <= m < |tape(q).messages| ==> !tape(q).messages[m].OperationMode?
  }

  lemma {:induction false} ModeAfterMeans(autonomous: bool, ms: seq<Message>) returns (n: int)
    ensures -1 <= n < |ms| && forall m :: n < m < |ms| ==> !ms[m].OperationMode?
    ensures if n == -1 then ModeAfter(autonomous, ms) == autonomous
            else ms[n].OperationMode? && (ModeAfter(autonomous, ms) <==> ms[n].mode == 2)
  {
    n := |ms| - 1;
    if ms != [] && !ms[n].OperationMode? {
      n := ModeAfterMeans(autonomous, ms[..n]);
      assert forall m :: n < m < |ms| - 1 ==> ms[..|ms| - 1][m] == ms[m];
    }
  }

  lemma LatestModeInLastPoll(tape: Tape, i: nat, q: nat, j: nat, last: nat)
    requires i <= q && j == q + 1 && last < |tape(q).messages| && tape(q).messages[last].OperationMode?
    requires forall m :: last < m < |tape(q).messages| ==> !tape(q).messages[m].OperationMode?
    ensures forall p: nat, n: nat :: IsLatestMode(tape, i, j, p, n) <==> p == q && n == last
  {
    forall p: nat, n: nat | IsLatestMode(tape, i, j, p, n) ensures p == q && n == last {
    }
  }

  lemma LatestModeEarlier(tape: Tape, i: nat, q: nat, j: nat)
    requires i <= q && j == q + 1 && forall m :: 0 <= m < |tape(q).messages| ==> !tape(q).messages[m].OperationMode?
    ensures forall p: nat, n: nat :: IsLatestMode(tape, i, j, p, n) <==> IsLatestMode(tape, i, q, p, n)
  {
    forall p: nat, n: nat ensures IsLatestMode(tape, i, j, p, n) <==> IsLatestMode(tape, i, q, p, n) {
    }
  }

  /** The authority term: some mode callback is the latest, and its mode is 2. */
  lemma {:induction false} LatestModeMeans(tape: Tape, i: nat, j: nat)
    ensures LatestMode(tape, i, j) <==> exists p: nat, n: nat :: IsLatestMode(tape, i, j, p, n) && tape(p).messages[n].mode == 2
    decreases j
  {
    if i < j {
      var q := j - 1;
      LatestModeMeans(tape, i, q);
      var last := ModeAfterMeans(LatestMode(tape, i, q), tape(q).messages);
      if last == -1 {
        LatestModeEarlier(tape, i, q, j);
      } else {
        LatestModeInLastPoll(tape, i, q, j, last);
        assert IsLatestMode(tape, i, j, q, last);
      }
      hide IsLatestMode, ModeAfter;
    }
  }

  /** What arms a stack at the end of poll k: the latest mode callback since poll r says
      mode 2, and 15 gated commands since poll r were received in the last 3 s. */
  lemma ArmedAtMeans(tape: Tape, r: nat, k: nat)
    ensures ArmedAt(tape, r, k) <==>
              && (exists p: nat, n: nat :: IsLatestMode(tape, r, k + 1, p, n) && tape(p).messages[n].mode == 2)
              && |set p, n | r <= p < k + 1 && 0 <= n < |tape(p).messages| && tape(p).messages[n].ControlCmd?
                             && 0.0 <= tape(k).now - tape(p).messages[n].at <= 3.0 :: (p, n)| >= 15
  {
    hide LatestMode, Stamps, RecentCount, IsLatestMode;
    LatestModeMeans(tape, r, k + 1);
    RecentOnTape(tape, Gated, r, k + 1, tape(k).now, 3.0);
    assert RecentOn(tape, Gated, r, k + 1, tape(k).now, 3.0)
        == set p, n | r <= p < k + 1 && 0 <= n < |tape(p).messages| && tape(p).messages[n].ControlCmd?
                      && 0.0 <= tape(k).now - tape(p).messages[n].at <= 3.0 :: (p, n);
  }

  /** What localizes it: 25 poses since the node was built, received in the last 5 s. */
  lemma LocalizedAtMeans(tape: Tape, k: nat)
    ensures LocalizedAt(tape, k) <==>
              |set p, n | 0 <= p < k + 1 && 0 <= n < |tape(p).messages| && tape(p).messages[n].KinematicState?
                          && 0.0 <= tape(k).now - tape(p).messages[n].at <= 5.0 :: (p, n)| >= 25
  {
    hide Stamps, RecentCount;
    RecentOnTape(tape, Localized, 0, k + 1, tape(k).now, 5.0);
    assert RecentOn(tape, Localized, 0, k + 1, tape(k).now, 5.0)
        == set p, n | 0 <= p < k + 1 && 0 <= n < |tape(p).messages| && tape(p).messages[n].KinematicState?
                      && 0.0 <= tape(k).now - tape(p).messages[n].at <= 5.0 :: (p, n);
  }

  /** The verdict of the engage wait, on the tape: some poll before the deadline is
      reached at which the stack is armed in this sense. */
  lemma ArmableMeans(tape: Tape, r: nat, deadline: real)
    ensures Armable(tape, r, deadline) <==>
              exists k: nat :: r <= k && ArmedAt(tape, r, k) && forall j: nat :: r <= j <= k ==> tape(j).check < deadline
    ensures Localizable(tape, r, deadline) <==>
              exists k: nat :: r <= k && LocalizedAt(tape, k) && forall j: nat :: r <= j <= k ==> tape(j).check < deadline
  {
    hide ArmedAt, LocalizedAt;
    forall k: nat ensures InTime(tape, r, k, deadline) <==> r <= k && forall j: nat :: r <= j <= k ==> tape(j).check < deadline {
    }
  }

  lemma LateIsNotInTime(tape: Tape, from: nat, late: nat, deadline: real)
    requires from <= late
    ensures tape(late).check >= deadline ==> forall k: nat :: late <= k ==> !InTime(tape, from, k, deadline)
  {
  }

  // ---- a bounded deque ----

  function LastOf(s: seq<real>, n: nat): seq<real> {
    if |s| <= n then s else s[|s| - n..]
  }

  /** Appending to a full deque drops its head. */
  function Append(deque: seq<real>, v: real, maxlen: nat): seq<real>
    requires maxlen > 0
  {
    (if |deque| < maxlen then deque else deque[1..]) + [v]
  }

  lemma AppendKeepsLast(s: seq<real>, v: real, maxlen: nat)
    requires maxlen > 0
    ensures Append(LastOf(s, maxlen), v, maxlen) == LastOf(s + [v], maxlen)
  {
  }

  // ---- the node ----

  function WindowOf(topic: Topic): real {
    if topic == Localized then LOCALIZED_WINDOW_S else CONTROL_CMD_WINDOW_S
  }

  ghost predicate OldForever(tape: Tape, from: nat, dropped: seq<real>, windowS: real) {
    forall k :: from <= k ==> AllOlder(dropped, tape(k).now, windowS)
  }

  lemma OldForeverLater(tape: Tape, from: nat, dropped: seq<real>, windowS: real)
    requires OldForever(tape, from, dropped, windowS)
    ensures OldForever(tape, from + 1, dropped, windowS)
  {
  }

  lemma NoMessages(autonomous: bool)
    ensures forall topic :: StampsOf([], topic) == []
    ensures VelocitiesOf([]) == [] && ModeAfter(autonomous, []) == autonomous
  {
  }

  lemma OneMoreMessage(ms: seq<Message>, i: nat, autonomous: bool)
    requires i < |ms|
    ensures forall topic :: StampsOf(ms[..i + 1], topic) == StampsOf(ms[..i], topic) + StampsOf([ms[i]], topic)
    ensures VelocitiesOf(ms[..i + 1]) == VelocitiesOf(ms[..i]) + VelocitiesOf([ms[i]])
    ensures ModeAfter(autonomous, ms[..i + 1]) == ModeAfter(ModeAfter(autonomous, ms[..i]), [ms[i]])
  {
    assert ms[..i + 1][..i] == ms[..i];
    assert [ms[i]][..0] == [];
  }

  lemma TrimmedStaysOld(tape: Tape, k: nat, dropped: seq<real>, windowS: real)
    requires MonotonicClock(tape) && AllOlder(dropped, tape(k).now, windowS)
    ensures OldForever(tape, k + 1, dropped, windowS)
  {
    forall j: nat | k + 1 <= j ensures AllOlder(dropped, tape(j).now, windowS) {
      assert tape(k).now <= tape(j).check && Orderly(tape(j));
    }
  }

  lemma NotPast(tape: Tape, pos: nat, bound: nat, deadline: real)
    requires MonotonicClock(tape) && tape(pos).check < deadline <= tape(bound).check
    ensures pos < bound
  {
    assert Orderly(tape(bound));
  }

  /** Drops stamps from the head of the deque while the head is older than the window. */
  method Trim(timestamps: seq<real>, now: real, windowS: real) returns (kept: seq<real>, ghost dropped: seq<real>)
    ensures timestamps == dropped + kept && AllOlder(dropped, now, windowS)
    ensures kept != [] ==> now - kept[0] <= windowS
  {
    kept, dropped := timestamps, [];
    while kept != [] && now - kept[0] > windowS
      invariant timestamps == dropped + kept && AllOlder(dropped, now, windowS)
      decreases |kept|
    {
      assert dropped + kept == dropped + [kept[0]] + kept[1..];
      kept, dropped := kept[1..], dropped + [kept[0]];
    }
  }

  class ArmAndGoal {
    const tape: Tape
    var pos: nat
    var kinematicTimes: seq<real>
    var controlCmdTimes: seq<real>
    var autonomousMode: bool
    var controlEnabled: bool
    var cmdLongitudinal: seq<real>
    /** The poll the engage reset happened before, and what trimming has dropped. */
    ghost var resetAt: nat
    ghost var droppedKinematic: seq<real>
    ghost var droppedControl: seq<real>

    ghost predicate Valid()
      reads this
    {
      && MonotonicClock(tape)
      && resetAt <= pos
      && Stamps(tape, Localized, 0, pos) == droppedKinematic + kinematicTimes
      && Stamps(tape, Gated, resetAt, pos) == droppedControl + controlCmdTimes
      && autonomousMode == LatestMode(tape, resetAt, pos)
      && cmdLongitudinal == LastOf(Velocities(tape, resetAt, pos), CMD_HISTORY)
      && OldForever(tape, pos, droppedKinematic, LOCALIZED_WINDOW_S)
      && OldForever(tape, pos, droppedControl, CONTROL_CMD_WINDOW_S)
    }

    constructor (tape: Tape)
      requires MonotonicClock(tape)
      ensures Valid() && this.tape == tape && pos == 0 && resetAt == 0
    {
      this.tape := tape;
      pos := 0;
      kinematicTimes, controlCmdTimes, cmdLongitudinal := [], [], [];
      autonomousMode, controlEnabled := false, false;
      resetAt, droppedKinematic, droppedControl := 0, [], [];
    }

    method OnKinematicState(at: real)
      modifies this`kinematicTimes
      ensures kinematicTimes == old(kinematicTimes) + [at]
    {
      kinematicTimes := kinematicTimes + [at];
    }

    method OnControlCmd(at: real, velocity: real)
      modifies this`controlCmdTimes, this`cmdLongitudinal
      ensures controlCmdTimes == old(controlCmdTimes) + [at]
      ensures cmdLongitudinal == Append(old(cmdLongitudinal), velocity, CMD_HISTORY)
    {
      controlCmdTimes := controlCmdTimes + [at];
      cmdLongitudinal := Append(cmdLongitudinal, velocity, CMD_HISTORY);
    }

    method OnOperationModeState(mode: int, enabled: bool)
      modifies this`autonomousMode, this`controlEnabled
      ensures autonomousMode == (mode == AUTONOMOUS) && controlEnabled == enabled
    {
      autonomousMode := mode == AUTONOMOUS;
      controlEnabled := enabled;
    }

    /** The callback registered for a message's topic. */
    method Dispatch(m: Message, ghost velocities: seq<real>)
      requires cmdLongitudinal == LastOf(velocities, CMD_HISTORY)
      modifies this`kinematicTimes, this`controlCmdTimes, this`autonomousMode, this`controlEnabled, this`cmdLongitudinal
      ensures kinematicTimes == old(kinematicTimes) + StampsOf([m], Localized)
      ensures controlCmdTimes == old(controlCmdTimes) + StampsOf([m], Gated)
      ensures autonomousMode == ModeAfter(old(autonomousMode), [m])
      ensures cmdLongitudinal == LastOf(velocities + VelocitiesOf([m]), CMD_HISTORY)
    {
      assert [m][..0] == [];
      assert kinematicTimes + [] == kinematicTimes && controlCmdTimes + [] == controlCmdTimes;
      match m {
        case KinematicState(at) =>
          OnKinematicState(at);
          assert velocities + [] == velocities;
        case ControlCmd(at, velocity) =>
          OnControlCmd(at, velocity);
          AppendKeepsLast(velocities, velocity, CMD_HISTORY);
        case OperationMode(mode, enabled) =>
          OnOperationModeState(mode, enabled);
          assert velocities + [] == velocities;
      }
    }

    /** rclpy.spin_once: the callbacks of the next poll run in order. */
    method SpinOnce() returns (now: real)
      requires Valid()
      modifies this`pos, this`kinematicTimes, this`controlCmdTimes, this`autonomousMode, this`controlEnabled, this`cmdLongitudinal
      ensures Valid() && pos == old(pos) + 1 && now == tape(old(pos)).now
    {
      hide MonotonicClock, LastOf, OldForever, StampsOf, VelocitiesOf, ModeAfter;
      var messages := tape(pos).messages;
      ghost var before := Velocities(tape, resetAt, pos);
      assert messages[..0] == [] && before + [] == before;
      NoMessages(autonomousMode);
      var i := 0;
      while i < |messages|
        invariant 0 <= i <= |messages| && pos == old(pos)
        invariant kinematicTimes == old(kinematicTimes) + StampsOf(messages[..i], Localized)
        invariant controlCmdTimes == old(controlCmdTimes) + StampsOf(messages[..i], Gated)
        invariant autonomousMode == ModeAfter(old(autonomousMode), messages[..i])
        invariant cmdLongitudinal == LastOf(before + VelocitiesOf(messages[..i]), CMD_HISTORY)
      {
        OneMoreMessage(messages, i, old(autonomousMode));
        Dispatch(messages[i], before + VelocitiesOf(messages[..i]));
        assert before + VelocitiesOf(messages[..i]) + VelocitiesOf([messages[i]]) == before + VelocitiesOf(messages[..i + 1]);
        i := i + 1;
      }
      assert messages[..i] == messages;
      OldForeverLater(tape, pos, droppedKinematic, LOCALIZED_WINDOW_S);
      OldForeverLater(tape, pos, droppedControl, CONTROL_CMD_WINDOW_S);
      now := tape(pos).now;
      pos := pos + 1;
    }

    ghost function Since(topic: Topic): nat
      reads this
    {
      if topic == Localized then 0 else resetAt
    }

    /** The wait both phases share: spin, trim, test, until the deadline. `entered`
        is the clock when it starts. */
    method WaitForCondition(topic: Topic, entered: real, timeoutS: real, isReady: Condition) returns (ready: bool)
      requires Valid() && ClockAdvances(tape)
      requires BlindToTrimming(isReady, WindowOf(topic))
      modifies this
      ensures Valid() && resetAt == old(resetAt) && pos >= old(pos)
      // It returns at the first poll in time whose full record satisfies the condition.
      ensures ready ==> old(pos) < pos && InTime(tape, old(pos), pos - 1, entered + timeoutS)
                        && ReadyAt(tape, topic, Since(topic), resetAt, pos - 1, isReady)
      ensures !ready ==> tape(pos).check >= entered + timeoutS
      ensures forall k :: old(pos) <= k < pos - (if ready then 1 else 0) ==>
                !ReadyAt(tape, topic, Since(topic), resetAt, k, isReady)
    {
      hide BlindToTrimming, Stamps, LatestMode, Velocities, LastOf, MonotonicClock, ReadyAt, OldForever;
      var deadline := entered + timeoutS;
      assert PassedEventually(tape, deadline);
      ghost var bound: nat :| tape(bound).check >= deadline;
      ghost var since, reset := Since(topic), resetAt;
      while tape(pos).check < deadline
        invariant Valid() && resetAt == reset && pos >= old(pos)
        invariant forall k :: old(pos) <= k < pos ==> tape(k).check < deadline
        invariant forall k :: old(pos) <= k < pos ==> !ReadyAt(tape, topic, since, reset, k, isReady)
        decreases bound - pos
      {
        NotPast(tape, pos, bound, deadline);
        ghost var now := pos;
        ready := SpinAndTest(topic, isReady);
        assert ready == ReadyAt(tape, topic, since, reset, now, isReady);
        if ready { return; }
      }
      ready := false;
    }

    /** One pass of the wait. */
    method SpinAndTest(topic: Topic, isReady: Condition) returns (ready: bool)
      requires Valid() && BlindToTrimming(isReady, WindowOf(topic))
      modifies this
      ensures Valid() && resetAt == old(resetAt) && pos == old(pos) + 1
      ensures ready == ReadyAt(tape, topic, Since(topic), resetAt, pos - 1, isReady)
    {
      hide LastOf, Stamps, LatestMode, Velocities;
      ghost var k := pos;
      ghost var dropped := if topic == Localized then droppedKinematic else droppedControl;
      assert AllOlder(dropped, tape(k).now, WindowOf(topic));
      var now := SpinOnce();
      var timestamps := if topic == Localized then kinematicTimes else controlCmdTimes;
      var kept;
      ghost var expired;
      kept, expired := Trim(timestamps, now, WindowOf(topic));
      assert dropped + (expired + kept) == dropped + expired + kept;
      TrimmedStaysOld(tape, k, dropped + expired, WindowOf(topic));
      if topic == Localized {
        kinematicTimes, droppedKinematic := kept, dropped + expired;
      } else {
        controlCmdTimes, droppedControl := kept, dropped + expired;
      }
      ready := isReady(autonomousMode, kept, now);
      assert isReady(autonomousMode, dropped + expired + kept, now) == ready;
    }

    method WaitLocalized(entered: real, timeoutS: real) returns (ready: bool)
      requires Valid() && ClockAdvances(tape)
      modifies this
      ensures Valid() && resetAt == old(resetAt)
      ensures ready <==> Localizable(tape, old(pos), entered + timeoutS)
    {
      hide Valid, MonotonicClock, ClockAdvances, BlindToTrimming, SustainedRateOk;
      ConditionsAreBlindToTrimming();
      ghost var from, deadline := pos, entered + timeoutS;
      ready := WaitForCondition(Localized, entered, timeoutS, LocalizedCondition());
      assert Since(Localized) == 0;
      assert ready ==> LocalizedAt(tape, pos - 1);
      LateIsNotInTime(tape, from, pos, deadline);
      forall k: nat | !ready && InTime(tape, from, k, deadline) ensures !LocalizedAt(tape, k) {
        assert !ReadyAt(tape, Localized, 0, resetAt, k, LocalizedCondition());
      }
    }

    method VerifyControlFlowing(entered: real, timeoutS: real) returns (armed: bool)
      requires Valid() && ClockAdvances(tape) && pos == resetAt
      modifies this
      ensures Valid() && resetAt == old(resetAt)
      ensures armed <==> Armable(tape, old(pos), entered + timeoutS)
      ensures armed ==> pos > resetAt && ArmedAt(tape, resetAt, pos - 1)
    {
      hide Valid, MonotonicClock, ClockAdvances, BlindToTrimming, ArmedOk;
      ConditionsAreBlindToTrimming();
      ghost var from, deadline := pos, entered + timeoutS;
      armed := WaitForCondition(Gated, entered, timeoutS, ArmedCondition());
      assert Since(Gated) == from && resetAt == from;
      assert armed ==> ArmedAt(tape, from, pos - 1);
      LateIsNotInTime(tape, from, pos, deadline);
      forall k: nat | !armed && InTime(tape, from, k, deadline) ensures !ArmedAt(tape, from, k) {
        assert !ReadyAt(tape, Gated, from, from, k, ArmedCondition());
      }
    }

    /** The callbacks that run while services are called and engage is published. */
    method SpinFor(spins: nat)
      requires Valid()
      modifies this`pos, this`kinematicTimes, this`controlCmdTimes, this`autonomousMode, this`controlEnabled, this`cmdLongitudinal
      ensures Valid() && pos == old(pos) + spins
    {
      var i := 0;
      while i < spins
        invariant 0 <= i <= spins && Valid() && pos == old(pos) + i
      {
        var now := SpinOnce();
        i := i + 1;
      }
    }

    /** The reset at the engage moment: both terms of the decision, and the
        observability state with them. */
    method ResetAtEngage()
      requires Valid()
      modifies this
      ensures Valid() && pos == old(pos) && resetAt == pos
      ensures controlCmdTimes == [] && !autonomousMode && !controlEnabled && cmdLongitudinal == []
      ensures kinematicTimes == old(kinematicTimes)
    {
      controlCmdTimes, droppedControl := [], [];
      autonomousMode, controlEnabled := false, false;
      cmdLongitudinal := [];
      resetAt := pos;
    }

    /** engage: `spins` polls run before the reset (the AD-API attempt, the publish);
        `started`, `resetRead` and `entered` are its clock reads. */
    method Engage(spins: nat, timeoutS: real, started: real, resetRead: real, entered: real) returns (armed: bool)
      requires Valid() && ClockAdvances(tape)
      modifies this
      ensures Valid() && resetAt == old(pos) + spins
      // What armed it lies after the reset, before the deadline, and within 3 s.
      ensures armed <==> Armable(tape, old(pos) + spins, entered + Remaining(timeoutS, started, resetRead))
      ensures armed ==> pos > resetAt && LatestMode(tape, resetAt, pos)
                        && RecentCount(Stamps(tape, Gated, resetAt, pos), tape(pos - 1).now, 3.0) >= 15
                        && |RecentOn(tape, Gated, resetAt, pos, tape(pos - 1).now, 3.0)| >= 15
      // The post-engage observation pools post-engage commands only.
      ensures cmdLongitudinal == LastOf(Velocities(tape, resetAt, pos), CMD_HISTORY)
    {
      SpinFor(spins);
      ResetAtEngage();
      armed := VerifyControlFlowing(entered, Remaining(timeoutS, started, resetRead));
      if armed { RecentOnTape(tape, Gated, resetAt, pos, tape(pos - 1).now, 3.0); }
    }
  }

  /** What is left of the budget, never negative. */
  function Remaining(timeoutS: real, started: real, now: real): (left: real)
    ensures left >= 0.0 && (left == 0.0 || left + (now - started) == timeoutS)
    ensures left == 0.0 <==> now - started >= timeoutS
  {
    if timeoutS - (now - started) > 0.0 then timeoutS - (now - started) else 0.0
  }

  /** A phase that has overrun its budget refuses without polling once. */
  lemma SpentBudgetRefuses(tape: Tape, r: nat, timeoutS: real, started: real, resetRead: real, entered: real)
    requires resetRead - started >= timeoutS && entered <= tape(r).check
    ensures !Armable(tape, r, entered + Remaining(timeoutS, started, resetRead))
  {
    var deadline := entered + Remaining(timeoutS, started, resetRead);
    LateIsNotInTime(tape, r, r, deadline);
  }
}
