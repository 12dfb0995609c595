/** Choosing a goal for a benchmark route: the four gate-honesty properties, the
    independent checker of one route, and the search over every candidate. */
module GoalSearch {
  import opened Prelude
  import opened Plane
  import opened RouteSearch

  datatype Gates = Gates(minLength: real, minTurn: real, minStraight: real, minApproach: real, skip: nat)

  datatype Failure = Unreachable | TooShort(d: real) | TooClose(straight: real) | TooStraight(turn: real)
                   | NearPass(approach: Reach)

  /** A finished search from `start` together with what its consumers measure. */
  datatype Survey = Survey(metric: Metric, positions: Positions, adj: Graph, start: Key, step: real, gates: Gates,
                           dist: map<Key, real>, prev: map<Key, Key>, hops: map<Key, nat>) {
    ghost predicate Valid() {
      && step > 0.0 && ShortestTree(adj, start, step, dist, prev, hops)
      && dist.Keys <= positions.Keys && Ranked(prev, hops)
    }

    ghost function Route(k: Key): (c: seq<Key>)
      requires Valid() && k in dist
      ensures Placed(positions, c)
    {
      ChainIsRoute(adj, start, prev, hops, k);
      assert forall i :: 0 <= i <= hops[k] ==> Chain(prev, hops, k)[i] in hops;
      Chain(prev, hops, k)
    }

    ghost function Straight(k: Key): real
      requires Valid() && k in dist
    {
      metric(positions[start].at, positions[k].at)
    }

    ghost function TurnTo(k: Key): real
      requires Valid() && k in dist
    {
      Turn(positions, Route(k))
    }

    ghost function Approach(k: Key): Reach
      requires Valid() && k in dist
    {
      Closest(metric, positions, Prefix(Route(k), gates.skip), positions[k].at)
    }

    /** The four properties a goal must have for the 1.0 m gate to be honest. */
    ghost predicate Clears(k: Key)
      requires Valid()
    {
      && k in dist && dist[k] >= gates.minLength && Straight(k) >= gates.minStraight
      && TurnTo(k) >= gates.minTurn && !Below(Approach(k), gates.minApproach)
    }

    ghost function ScoreOf(k: Key): Score
      requires Valid() && k in dist
    {
      Score(Approach(k), Straight(k))
    }
  }

  /** What clearing every gate means on the road: the reconstructed chain is a
      shortest route of the graph, at least the minimum length, and outside the
      final approach it never comes near the goal. */
  lemma ClearedRouteIsHonest(s: Survey, k: Key)
    requires s.Valid() && s.Clears(k)
    ensures IsRoute(s.adj, s.Route(k), s.start, k) && NoRepeats(s.Route(k))
    ensures forall p :: IsRoute(s.adj, p, s.start, k) ==> Cost(|p| - 1, s.step) >= s.gates.minLength
    ensures s.gates.skip > 0 ==> forall i :: 0 <= i < |s.Route(k)| - s.gates.skip ==>
              s.metric(s.positions[s.Route(k)[i]].at, s.positions[k].at) >= s.gates.minApproach
  {
    ChainIsShortestRoute(s.adj, s.start, s.step, s.dist, s.prev, s.hops, k);
    forall p | IsRoute(s.adj, p, s.start, k) ensures Cost(|p| - 1, s.step) >= s.gates.minLength {
      RouteBoundsDistance(s.adj, s.start, s.step, s.dist, s.prev, s.hops, p, k);
    }
    NearPassCaughtIff(s, k);
  }

  /** Exactly when the near-pass gate speaks: with a nonzero skip it passes iff no
      node before the final approach comes nearer than the bound. A skip of zero
      silences it, because the sliced prefix is then empty. */
  lemma NearPassCaughtIff(s: Survey, k: Key)
    requires s.Valid() && k in s.dist
    ensures !Below(s.Approach(k), s.gates.minApproach) <==>
              s.gates.skip == 0 || forall i :: 0 <= i < |s.Route(k)| - s.gates.skip ==>
                s.metric(s.positions[s.Route(k)[i]].at, s.positions[k].at) >= s.gates.minApproach
  {
    var c := s.Route(k);
    var prefix := Prefix(c, s.gates.skip);
    if s.gates.skip > 0 {
      if !Below(s.Approach(k), s.gates.minApproach) {
        forall i | 0 <= i < |c| - s.gates.skip
          ensures s.metric(s.positions[c[i]].at, s.positions[k].at) >= s.gates.minApproach
        {
          assert prefix[i] == c[i] && prefix[i] in prefix;
        }
      } else {
        var v :| v in prefix && s.Approach(k).m == s.metric(s.positions[v].at, s.positions[k].at);
        var i :| 0 <= i < |prefix| && prefix[i] == v;
        assert c[i] == v;
      }
    }
  }

  /** A road through b to the goal c, with b five metres from c, under the default
      gates but a skip of zero. */
  ghost function PassingSurvey(metric: Metric, a: Key, b: Key, c: Key): Survey {
    Survey(metric,
           map[a := Pose(XY(0.0, 0.0), 0.0), b := Pose(XY(200.0, 0.0), 90.0), c := Pose(XY(205.0, 0.0), 0.0)],
           map[a := [b], b := [c]], a, 2.0, Gates(4.0, 60.0, 100.0, 10.0, 0),
           map[a := 0.0, b := 2.0, c := 4.0], map[b := a, c := b], map[a := 0, b := 1, c := 2])
  }

  lemma PassingSurveyIsValid(metric: Metric, a: Key, b: Key, c: Key)
    requires a != b && a != c && b != c
    ensures PassingSurvey(metric, a, b, c).Valid()
    ensures PassingSurvey(metric, a, b, c).Route(c) == [a, b, c]
  {
    var s := PassingSurvey(metric, a, b, c);
    assert s.prev.Keys == s.hops.Keys - {a};
    assert Chain(s.prev, s.hops, a) == [a];
    assert Chain(s.prev, s.hops, b) == [a, b];
  }

  lemma AlongX(metric: Metric, x: real, y: real)
    requires Euclidean(metric) && x <= y
    ensures metric(XY(x, 0.0), XY(y, 0.0)) == y - x
  {
    Pythagoras(metric, XY(x, 0.0), XY(y, 0.0));
    assert D2(XY(x, 0.0), XY(y, 0.0)) == Sq(y - x);
    SqOrder(metric(XY(x, 0.0), XY(y, 0.0)), y - x);
  }

  /** With a skip of zero a goal clears every gate although its route passes within
      the forbidden ten metres of it. */
  lemma ZeroSkipHidesNearPass(metric: Metric, a: Key, b: Key, c: Key)
    requires Euclidean(metric) && a != b && a != c && b != c
    ensures var s := PassingSurvey(metric, a, b, c);
            s.Valid() && s.Clears(c) && s.Route(c)[1] == b
            && metric(s.positions[b].at, s.positions[c].at) < s.gates.minApproach
  {
    var s := PassingSurvey(metric, a, b, c);
    PassingSurveyIsValid(metric, a, b, c);
    AlongX(metric, 0.0, 205.0);
    AlongX(metric, 200.0, 205.0);
    RightAngles(s.positions, a, b, c);
  }

  lemma RightAngles(positions: Positions, a: Key, b: Key, c: Key)
    requires Placed(positions, [a, b, c])
    requires positions[a].yaw == 0.0 && positions[b].yaw == 90.0 && positions[c].yaw == 0.0
    ensures Turn(positions, [a, b, c]) == 180.0
  {
    assert [a, b, c][..2] == [a, b] && [a, b][..1] == [a];
    assert Wrap(90.0) == 90.0 && Wrap(-90.0) == -90.0;
    assert Turn(positions, [a]) == 0.0;
    assert Turn(positions, [a, b]) == 90.0;
  }

  /** One failure per property missed, in the order the checker tests them. */
  function Shortfalls(d: real, straight: real, turn: real, approach: Reach, gates: Gates): (f: seq<Failure>)
    ensures TooShort(d) in f <==> d < gates.minLength
    ensures TooClose(straight) in f <==> straight < gates.minStraight
    ensures TooStraight(turn) in f <==> turn < gates.minTurn
    ensures NearPass(approach) in f <==> Below(approach, gates.minApproach)
    ensures f == [] <==> d >= gates.minLength && straight >= gates.minStraight && turn >= gates.minTurn
                         && !Below(approach, gates.minApproach)
  {
    (if d < gates.minLength then [TooShort(d)] else [])
    + (if straight < gates.minStraight then [TooClose(straight)] else [])
    + (if turn < gates.minTurn then [TooStraight(turn)] else [])
    + (if Below(approach, gates.minApproach) then [NearPass(approach)] else [])
  }

  method VerifyRoute(metric: Metric, positions: Positions, dist: map<Key, real>, prev: map<Key, Key>,
                     start: Key, goal: Key, gates: Gates, ghost s: Survey)
    returns (failures: seq<Failure>)
    requires s.Valid() && s == Survey(metric, positions, s.adj, start, s.step, gates, dist, prev, s.hops)
    ensures failures == [] <==> s.Clears(goal)
    ensures failures == if goal in dist then
                          Shortfalls(dist[goal], s.Straight(goal), s.TurnTo(goal), s.Approach(goal), gates)
                        else [Unreachable]
  {
    if goal !in dist {
      return [Unreachable];
    }
    ghost var route := s.Route(goal);
    var d := dist[goal];
    failures := if d < gates.minLength then [TooShort(d)] else [];
    var straight := metric(positions[start].at, positions[goal].at);
    failures := failures + if straight < gates.minStraight then [TooClose(straight)] else [];
    var turn, approach := PathStats(metric, positions, prev, goal, gates.skip, s.hops);
    failures := failures + if turn < gates.minTurn then [TooStraight(turn)] else [];
    failures := failures + if Below(approach, gates.minApproach) then [NearPass(approach)] else [];
  }

  datatype Score = Score(approach: Reach, straight: real)

  /** Lexicographic order of the (closest approach, separation) tuples. */
  predicate Beats(a: Score, b: Score) {
    Farther(a.approach, b.approach) || (a.approach == b.approach && a.straight > b.straight)
  }

  ghost predicate Eligible(s: Survey, junctions: set<Key>, k: Key)
    requires s.Valid()
  {
    k != s.start && k !in junctions && s.Clears(k)
  }

  ghost function Scores(s: Survey, junctions: set<Key>): (m: map<Key, Score>)
    requires s.Valid()
    ensures forall k :: k in m <==> k in s.dist && Eligible(s, junctions, k)
    ensures forall k :: k in m ==> m[k] == s.ScoreOf(k)
  {
    map k | k in s.dist && Eligible(s, junctions, k) :: s.ScoreOf(k)
  }

  /** `best` is the first best-scoring eligible node of `order`. */
  ghost predicate BestOf(scores: map<Key, Score>, order: seq<Key>, best: Option<Key>) {
    match best
    case None => forall k :: k in order ==> k !in scores
    case Some(b) =>
      && b in order && b in scores
      && forall i :: 0 <= i < |order| && order[i] in scores ==>
           && !Beats(scores[order[i]], scores[b])
           && (Beats(scores[b], scores[order[i]]) || FirstBy(order, b, i))
  }

  ghost predicate FirstBy(order: seq<Key>, b: Key, i: nat)
    requires i < |order|
  {
    exists j :: 0 <= j <= i && order[j] == b
  }

  lemma BeatsIsStrictOrder(a: Score, b: Score, c: Score)
    ensures !(Beats(a, b) && Beats(b, a))
    ensures !Beats(a, b) && !Beats(b, a) ==> a == b
    ensures Beats(a, b) && !Beats(c, b) ==> Beats(a, c)
  {
  }

  lemma FirstByGrows(order: seq<Key>, b: Key, k: Key)
    ensures forall i :: 0 <= i < |order| && FirstBy(order, b, i) ==> FirstBy(order + [k], b, i)
    ensures b in order ==> FirstBy(order + [k], b, |order|)
    ensures FirstBy(order + [k], k, |order|)
  {
    var longer := order + [k];
    assert longer[|order|] == k;
    forall i | 0 <= i < |order| && FirstBy(order, b, i) ensures FirstBy(longer, b, i) {
      var j :| 0 <= j <= i && order[j] == b;
      assert longer[j] == b;
    }
    if b in order {
      var j :| 0 <= j < |order| && order[j] == b;
      assert longer[j] == b;
    }
  }

  lemma BestStays(scores: map<Key, Score>, order: seq<Key>, best: Option<Key>, k: Key)
    requires BestOf(scores, order, best)
    requires k in scores ==> best.Some? && !Beats(scores[k], scores[best.value])
    ensures BestOf(scores, order + [k], best)
  {
    if best.Some? { FirstByGrows(order, best.value, k); }
  }

  lemma BestMoves(scores: map<Key, Score>, order: seq<Key>, best: Option<Key>, k: Key)
    requires BestOf(scores, order, best) && k in scores
    requires best.None? || Beats(scores[k], scores[best.value])
    ensures BestOf(scores, order + [k], Some(k))
  {
    FirstByGrows(order, k, k);
    if best.Some? {
      forall i | 0 <= i < |order| && order[i] in scores
        ensures Beats(scores[k], scores[order[i]]) && !Beats(scores[order[i]], scores[k])
      {
        BeatsIsStrictOrder(scores[k], scores[best.value], scores[order[i]]);
        BeatsIsStrictOrder(scores[k], scores[order[i]], scores[k]);
      }
    }
  }

  /** One turn of the search loop: the filters, and the score of what passes. */
  method Judge(metric: Metric, positions: Positions, junctions: set<Key>, start: Key, gates: Gates,
               dist: map<Key, real>, prev: map<Key, Key>, k: Key, ghost s: Survey)
    returns (score: Option<Score>)
    requires s.Valid() && s == Survey(metric, positions, s.adj, start, s.step, gates, dist, prev, s.hops) && k in dist
    ensures score == if Eligible(s, junctions, k) then Some(s.ScoreOf(k)) else None
  {
    if k == start || k in junctions || dist[k] < gates.minLength {
      return None;
    }
    ghost var route := s.Route(k);
    var straight := metric(positions[start].at, positions[k].at);
    if straight < gates.minStraight {
      return None;
    }
    var turn, approach := PathStats(metric, positions, prev, k, gates.skip, s.hops);
    if turn < gates.minTurn || Below(approach, gates.minApproach) {
      return None;
    }
    score := Some(Score(approach, straight));
  }

  /** The outcome of the search, over the survey that finished it: a goal is found iff
      some node is eligible, no eligible node scores higher, and among equal scores the
      node discovered first wins, in an order that never goes back to a nearer node. */
  ghost predicate SelectedFrom(s: Survey, junctions: set<Key>, goal: Option<Key>, order: seq<Key>) {
    && s.Valid()
    && (goal.None? <==> forall k :: k in s.dist ==> !Eligible(s, junctions, k))
    && BestOf(Scores(s, junctions), order, goal)
    && Records(s.dist, order, s.step, s.hops) && Discovered(order, s.start, s.hops)
  }

  /** A tie goes to the nearer goal: no node with the same score is fewer edges away. */
  lemma TiesGoToTheNearest(s: Survey, junctions: set<Key>, goal: Option<Key>, order: seq<Key>, k: Key)
    requires SelectedFrom(s, junctions, goal, order) && k in s.dist && Eligible(s, junctions, k)
    ensures goal.Some? && goal.value in s.dist && !Beats(s.ScoreOf(k), s.ScoreOf(goal.value))
    ensures s.ScoreOf(k) == s.ScoreOf(goal.value) ==> s.hops[goal.value] <= s.hops[k]
  {
    var b, scores := goal.value, Scores(s, junctions);
    var i :| 0 <= i < |order| && order[i] == k;
    assert !Beats(scores[order[i]], scores[b]);
    if s.ScoreOf(k) == s.ScoreOf(b) {
      BeatsIsStrictOrder(scores[b], scores[k], scores[b]);
      assert FirstBy(order, b, i);
      var j :| 0 <= j <= i && order[j] == b;
      assert j < i ==> s.hops[order[j]] <= s.hops[order[i]];
    }
  }

  /** The four gates and the two exclusions, spelled out for one node. */
  lemma EligibleMeans(s: Survey, junctions: set<Key>, k: Key)
    requires s.Valid() && k in s.dist
    ensures Eligible(s, junctions, k) <==>
              && k != s.start && k !in junctions
              && s.dist[k] >= s.gates.minLength
              && s.metric(s.positions[s.start].at, s.positions[k].at) >= s.gates.minStraight
              && Turn(s.positions, s.Route(k)) >= s.gates.minTurn
              && (s.gates.skip == 0 || forall i :: 0 <= i < |s.Route(k)| - s.gates.skip ==>
                    s.metric(s.positions[s.Route(k)[i]].at, s.positions[k].at) >= s.gates.minApproach)
  {
    NearPassCaughtIff(s, k);
  }

  lemma SelectedIsEligible(s: Survey, junctions: set<Key>, goal: Option<Key>, order: seq<Key>)
    requires SelectedFrom(s, junctions, goal, order)
    ensures goal.Some? ==> goal.value in s.dist && Eligible(s, junctions, goal.value)
    ensures goal.None? ==> forall k :: k in s.dist ==> !Eligible(s, junctions, k)
  {
    assert goal.Some? ==> goal.value in Scores(s, junctions);
  }

  /** The selected goal, of all eligible nodes, comes nearest to its goal last: none has
      a larger closest approach, and none with the same approach lies farther off. */
  lemma SelectedStaysFarthest(s: Survey, junctions: set<Key>, goal: Option<Key>, order: seq<Key>, k: Key)
    requires SelectedFrom(s, junctions, goal, order) && k in s.dist && Eligible(s, junctions, k)
    ensures goal.Some? && goal.value in s.dist && Eligible(s, junctions, goal.value)
    ensures s.Approach(goal.value).Infinite?
            || (s.Approach(k).Metres? && s.Approach(k).m <= s.Approach(goal.value).m)
    ensures s.Approach(k) == s.Approach(goal.value) ==>
              s.metric(s.positions[s.start].at, s.positions[k].at)
              <= s.metric(s.positions[s.start].at, s.positions[goal.value].at)
  {
    TiesGoToTheNearest(s, junctions, goal, order, k);
    assert goal.value in Scores(s, junctions);
    ScoresCompare(s.ScoreOf(k), s.ScoreOf(goal.value));
  }

  lemma ScoresCompare(a: Score, b: Score)
    requires !Beats(a, b)
    ensures b.approach.Infinite? || (a.approach.Metres? && a.approach.m <= b.approach.m)
    ensures a.approach == b.approach ==> a.straight <= b.straight
  {
  }

  ghost predicate Selects(metric: Metric, positions: Positions, adj: Graph, junctions: set<Key>, start: Key,
                          step: real, gates: Gates, goal: Option<Key>, prev: map<Key, Key>)
  {
    exists dist, hops, order ::
      SelectedFrom(Survey(metric, positions, adj, start, step, gates, dist, prev, hops), junctions, goal, order)
  }

  /** Sound, complete and optimal against VerifyRoute's verdict. */
  method SelectGoal(metric: Metric, positions: Positions, adj: Graph, junctions: set<Key>, start: Key,
                    step: real, gates: Gates)
    returns (goal: Option<Key>, prev: map<Key, Key>)
    requires step > 0.0 && Nodes(adj, start) <= positions.Keys
    ensures Selects(metric, positions, adj, junctions, start, step, gates, goal, prev)
  {
    var dist, found;
    ghost var hops;
    dist, prev, found, hops := Dijkstra(adj, start, step);
    TreeIsRanked(adj, start, prev, hops);
    ghost var s := Survey(metric, positions, adj, start, step, gates, dist, prev, hops);
    ghost var scores := Scores(s, junctions);
    goal := None;
    var best := Score(Infinite, 0.0);
    for i := 0 to |found|
      invariant BestOf(scores, found[..i], goal)
      invariant goal.Some? ==> goal.value in scores && best == scores[goal.value]
    {
      var k := found[i];
      TakeNext(found, i);
      var score := Judge(metric, positions, junctions, start, gates, dist, prev, k, s);
      if score.Some? && (goal.None? || Beats(score.value, best)) {
        BestMoves(scores, found[..i], goal, k);
        best, goal := score.value, Some(k);
      } else {
        BestStays(scores, found[..i], goal, k);
      }
    }
    assert found[..|found|] == found;
    assert SelectedFrom(s, junctions, goal, found);
  }
}
