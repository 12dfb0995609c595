/** The graph half of the route picker: a heap-driven shortest-path search, the
    chain it reconstructs, and the search for a goal that clears every gate. */
module RouteSearch {
  import opened Prelude
  import opened Plane

  // Graph nodes are arbitrary hashable values.
  type Key(==, !new)
  type Graph = map<Key, seq<Key>>

  /** The successors of a node; one without an entry has none. */
  function Out(adj: Graph, u: Key): (out: seq<Key>)
    ensures forall v :: v in out <==> u in adj && v in adj[u]
  {
    if u in adj then adj[u] else []
  }

  /** The length of a route of n edges: each edge costs one sampling step. */
  function Cost(n: nat, step: real): real {
    n as real * step
  }

  ghost function Nodes(adj: Graph, src: Key): set<Key> {
    {src} + (set u, v | u in adj && v in adj[u] :: v)
  }

  /** A road route: consecutive nodes are joined by edges of the graph. */
  ghost predicate IsRoute(adj: Graph, p: seq<Key>, src: Key, dst: Key) {
    && |p| > 0 && p[0] == src && p[|p| - 1] == dst
    && forall i :: 0 <= i < |p| - 1 ==> p[i + 1] in Out(adj, p[i])
  }

  ghost predicate NoRepeats(p: seq<Key>) {
    forall i, j :: 0 <= i < j < |p| ==> p[i] != p[j]
  }

  /** What a finished search leaves behind: `hops` counts the edges behind each
      distance, every edge is relaxed, and each predecessor is one edge nearer. */
  ghost predicate ShortestTree(adj: Graph, src: Key, step: real, dist: map<Key, real>,
                               prev: map<Key, Key>, hops: map<Key, nat>) {
    && dist.Keys == hops.Keys
    && (forall v :: v in hops ==> dist[v] == Cost(hops[v], step))
    && Tree(adj, src, prev, hops)
    && forall u :: u in hops ==> Relaxed(adj, hops, u)
  }

  ghost predicate Tree(adj: Graph, src: Key, prev: map<Key, Key>, hops: map<Key, nat>) {
    && src in hops && hops[src] == 0
    && prev.Keys == hops.Keys - {src}
    && forall v :: v in prev ==> Linked(adj, prev, hops, v)
  }

  ghost predicate Linked(adj: Graph, prev: map<Key, Key>, hops: map<Key, nat>, v: Key)
    requires v in prev
  {
    v in hops && prev[v] in hops && v in Out(adj, prev[v]) && hops[v] == hops[prev[v]] + 1
  }

  ghost predicate Relaxed(adj: Graph, hops: map<Key, nat>, u: Key)
    requires u in hops
  {
    forall v :: v in Out(adj, u) ==> v in hops && hops[v] <= hops[u] + 1
  }

  // ---- the search ----

  /** The heap and the part of the graph it still owes: every entry carries its
      node's current distance, and all entries lie within one step of `lo`. */
  ghost predicate Frontier(pq: multiset<(real, Key)>, step: real, hops: map<Key, nat>,
                           done: set<Key>, lo: nat) {
    && (forall e :: e in pq ==> Pending(e, step, hops, lo))
    && (forall u :: u in hops ==> hops[u] <= lo + 1)
    && (forall u :: u in hops ==> u in done || (Cost(hops[u], step), u) in pq)
  }

  ghost predicate Extends(before: map<Key, nat>, after: map<Key, nat>, added: seq<Key>) {
    && (forall w :: w in before ==> w in after && after[w] == before[w])
    && (forall w :: w in after ==> w in before || w in added)
    && (forall w :: w in added ==> w in after)
  }

  ghost predicate Pending(e: (real, Key), step: real, hops: map<Key, nat>, lo: nat) {
    e.1 in hops && e.0 == Cost(hops[e.1], step) && lo <= hops[e.1]
  }

  lemma CostOrder(a: nat, b: nat, step: real)
    requires step > 0.0
    ensures Cost(a, step) <= Cost(b, step) <==> a <= b
    ensures Cost(a + 1, step) == Cost(a, step) + step
  {
    if a <= b {
      assert (b - a) as real * step >= 0.0;
    } else {
      assert (a - b) as real * step > 0.0;
    }
  }

  lemma LeastEntry(pq: multiset<(real, Key)>) returns (e: (real, Key))
    requires pq != multiset{}
    ensures e in pq && forall f :: f in pq ==> e.0 <= f.0
    decreases |pq|
  {
    e :| e in pq;
    var rest := pq - multiset{e};
    if rest != multiset{} {
      var m := LeastEntry(rest);
      forall f | f in pq ensures e.0 <= f.0 || m.0 <= f.0 {
        if f != e { assert f in rest; }
      }
      if m.0 < e.0 { e := m; }
    } else {
      assert forall f :: f in pq ==> f == e || f in rest;
    }
  }

  /** heapq.heappop: some entry with the least distance. The order among equal
      distances is left open, so everything proved holds for each of them. */
  method PopLeast(pq: multiset<(real, Key)>) returns (e: (real, Key), rest: multiset<(real, Key)>)
    requires pq != multiset{}
    ensures e in pq && rest == pq - multiset{e}
    ensures forall f :: f in pq ==> e.0 <= f.0
  {
    ghost var least := LeastEntry(pq);
    e :| e in pq && forall f :: f in pq ==> e.0 <= f.0;
    rest := pq - multiset{e};
  }

  lemma PopKeeps(pq: multiset<(real, Key)>, e: (real, Key), step: real, hops: map<Key, nat>,
                 done: set<Key>, lo: nat)
    requires step > 0.0 && Frontier(pq, step, hops, done, lo)
    requires e in pq && forall f :: f in pq ==> e.0 <= f.0
    ensures e.1 in hops && e.0 == Cost(hops[e.1], step) && lo <= hops[e.1] <= lo + 1
    ensures Frontier(pq - multiset{e}, step, hops, done + {e.1}, hops[e.1])
  {
    assert Pending(e, step, hops, lo);
    forall f | f in pq - multiset{e} ensures Pending(f, step, hops, hops[e.1]) {
      assert Pending(f, step, hops, lo);
      CostOrder(hops[e.1], hops[f.1], step);
    }
    forall u | u in hops ensures u in done + {e.1} || (Cost(hops[u], step), u) in pq - multiset{e} {
      if u != e.1 && u !in done {
        assert (Cost(hops[u], step), u) in pq;
      }
    }
  }

  /** The bookkeeping that goes with the hop counts: the distances the caller
      sees, and the order in which nodes entered the distance map. */
  ghost predicate Records(dist: map<Key, real>, order: seq<Key>, step: real, hops: map<Key, nat>) {
    && dist.Keys == hops.Keys
    && (forall w :: w in hops ==> dist[w] == Cost(hops[w], step))
    && NoRepeats(order) && forall w :: w in order <==> w in dist
  }

  /** Nodes are recorded as they are discovered: the source first, and never a node
      nearer than one before it. */
  ghost predicate Discovered(order: seq<Key>, src: Key, hops: map<Key, nat>) {
    && order != [] && order[0] == src
    && (forall v :: v in order ==> v in hops)
    && forall i, j :: 0 <= i < j < |order| ==> hops[order[i]] <= hops[order[j]]
  }

  lemma DiscoveredGrows(order: seq<Key>, src: Key, hops: map<Key, nat>, v: Key, pq: multiset<(real, Key)>, step: real,
                        done: set<Key>, h: nat)
    requires Discovered(order, src, hops) && v !in hops && Frontier(pq, step, hops, done, h)
    ensures Discovered(order + [v], src, hops[v := h + 1])
  {
    hide Pending;
    var more := order + [v];
    forall w | w in more ensures w in hops[v := h + 1] {
      assert w in order || w == v;
    }
    forall i, j | 0 <= i < j < |more| ensures hops[v := h + 1][more[i]] <= hops[v := h + 1][more[j]] {
      assert more[i] in order;
    }
  }

  lemma RecordsKeeps(dist: map<Key, real>, order: seq<Key>, step: real, hops: map<Key, nat>, v: Key, n: nat)
    requires Records(dist, order, step, hops) && v !in hops
    ensures Records(dist[v := Cost(n, step)], order + [v], step, hops[v := n])
  {
  }

  lemma DiscoverKeeps(adj: Graph, src: Key, step: real, prev: map<Key, Key>, hops: map<Key, nat>,
                      pq: multiset<(real, Key)>, done: set<Key>, u: Key, v: Key)
    requires u in hops && v !in hops && v in Out(adj, u)
    requires Tree(adj, src, prev, hops) && Frontier(pq, step, hops, done, hops[u])
    ensures Tree(adj, src, prev[v := u], hops[v := hops[u] + 1])
    ensures Frontier(pq + multiset{(Cost(hops[u] + 1, step), v)}, step, hops[v := hops[u] + 1], done, hops[u])
  {
    var hops' := hops[v := hops[u] + 1];
    var prev' := prev[v := u];
    assert prev'.Keys == hops'.Keys - {src};
    forall w | w in prev' ensures Linked(adj, prev', hops', w) {
      if w != v { assert Linked(adj, prev, hops, w); }
    }
    var pq' := pq + multiset{(Cost(hops[u] + 1, step), v)};
    forall f | f in pq' ensures Pending(f, step, hops', hops[u]) {
      if f in pq { assert Pending(f, step, hops, hops[u]); }
    }
    forall w | w in hops' ensures w in done || (Cost(hops'[w], step), w) in pq' {
      if w != v && w !in done { assert (Cost(hops[w], step), w) in pq; }
    }
  }

  ghost predicate AllRelaxed(adj: Graph, hops: map<Key, nat>, done: set<Key>) {
    forall u :: u in done ==> u in hops && Relaxed(adj, hops, u)
  }

  lemma RelaxedStays(adj: Graph, before: map<Key, nat>, after: map<Key, nat>, done: set<Key>, added: seq<Key>)
    requires AllRelaxed(adj, before, done) && Extends(before, after, added)
    ensures AllRelaxed(adj, after, done)
  {
    forall u | u in done ensures Relaxed(adj, after, u) {
      assert Relaxed(adj, before, u);
    }
  }

  /** Distances already set stay, and every successor has one of at most nd. */
  ghost predicate DistancesRelaxed(before: map<Key, real>, after: map<Key, real>, next: seq<Key>, nd: real) {
    && (forall w :: w in before ==> w in after && after[w] == before[w])
    && (forall v :: v in next ==> v in after && after[v] <= nd)
    && forall w :: w in after ==> w in before || w in next
  }

  /** The inner loop: relax every edge out of the node just popped. */
  method RelaxFrom(adj: Graph, src: Key, step: real, d: real, u: Key, pq0: multiset<(real, Key)>,
                   dist0: map<Key, real>, prev0: map<Key, Key>, order0: seq<Key>,
                   ghost hops0: map<Key, nat>, ghost done: set<Key>)
    returns (pq: multiset<(real, Key)>, dist: map<Key, real>, prev: map<Key, Key>, order: seq<Key>,
             ghost hops: map<Key, nat>)
    requires step > 0.0 && u in hops0 && d == Cost(hops0[u], step)
    requires Records(dist0, order0, step, hops0) && Tree(adj, src, prev0, hops0)
    requires Frontier(pq0, step, hops0, done, hops0[u]) && Discovered(order0, src, hops0)
    ensures Records(dist, order, step, hops) && Tree(adj, src, prev, hops) && Discovered(order, src, hops)
    ensures Frontier(pq, step, hops, done, hops0[u])
    ensures Extends(hops0, hops, Out(adj, u)) && Relaxed(adj, hops, u) && (hops.Keys == hops0.Keys ==> pq == pq0)
    ensures DistancesRelaxed(dist0, dist, Out(adj, u), d + step)
  {
    hide Frontier, Tree, Records, Extends, Relaxed, Cost, Discovered;
    pq, dist, prev, order, hops := pq0, dist0, prev0, order0, hops0;
    var next := Out(adj, u);
    ghost var h := hops0[u];
    ExtendsNothing(hops0);
    for i := 0 to |next|
      invariant Records(dist, order, step, hops) && Tree(adj, src, prev, hops) && Discovered(order, src, hops)
      invariant u in hops && hops[u] == h && d == Cost(h, step) && Frontier(pq, step, hops, done, h)
      invariant Extends(hops0, hops, next[..i]) && (hops.Keys == hops0.Keys ==> pq == pq0)
    {
      var v := next[i];
      var nd := d + step;
      TakeNext(next, i);
      SeenIsClose(dist, order, step, hops, pq, done, u, v);
      ExtendsStep(hops0, hops, next[..i], v, h + 1);
      if v !in dist {
        DiscoverKeeps(adj, src, step, prev, hops, pq, done, u, v);
        RecordsKeeps(dist, order, step, hops, v, h + 1);
        DiscoveredGrows(order, src, hops, v, pq, step, done, h);
      }
      if v !in dist || nd < dist[v] {
        if v !in dist { order := order + [v]; }
        dist, prev := dist[v := nd], prev[v := u];
        hops := hops[v := h + 1];
        pq := pq + multiset{(nd, v)};
      }
    }
    assert next[..|next|] == next;
    AllSeen(adj, hops0, hops, pq, step, done, u);
    NewDistances(dist0, order0, hops0, dist, order, hops, step, adj, u);
  }

  lemma NewDistances(dist0: map<Key, real>, order0: seq<Key>, hops0: map<Key, nat>, dist: map<Key, real>,
                     order: seq<Key>, hops: map<Key, nat>, step: real, adj: Graph, u: Key)
    requires step > 0.0 && u in hops && Relaxed(adj, hops, u)
    requires Records(dist0, order0, step, hops0) && Records(dist, order, step, hops) && Extends(hops0, hops, Out(adj, u))
    ensures DistancesRelaxed(dist0, dist, Out(adj, u), Cost(hops[u], step) + step)
  {
    hide Cost, NoRepeats, Out;
    CostOrder(hops[u], hops[u], step);
    forall v | v in Out(adj, u) ensures v in dist && dist[v] <= Cost(hops[u], step) + step {
      CostOrder(hops[v], hops[u] + 1, step);
    }
    forall w | w in dist0 ensures w in dist && dist[w] == dist0[w] {
      assert hops[w] == hops0[w];
    }
  }

  lemma ExtendsNothing(before: map<Key, nat>)
    ensures Extends(before, before, [])
  {
  }

  lemma ExtendsStep(before: map<Key, nat>, after: map<Key, nat>, added: seq<Key>, v: Key, n: nat)
    requires Extends(before, after, added)
    ensures v in after ==> Extends(before, after, added + [v])
    ensures v !in after ==> Extends(before, after[v := n], added + [v]) && after[v := n].Keys != before.Keys
  {
    if v !in after {
      assert v in after[v := n] && v !in before;
    }
  }

  /** A node already discovered is at most one step beyond the level being relaxed,
      so a later edge never improves it and no heap entry ever goes stale. */
  lemma SeenIsClose(dist: map<Key, real>, order: seq<Key>, step: real, hops: map<Key, nat>,
                    pq: multiset<(real, Key)>, done: set<Key>, u: Key, v: Key)
    requires step > 0.0 && u in hops && Records(dist, order, step, hops) && Frontier(pq, step, hops, done, hops[u])
    ensures v in dist <==> v in hops
    ensures Cost(hops[u] + 1, step) == Cost(hops[u], step) + step
    ensures v in dist ==> dist[v] <= Cost(hops[u], step) + step
  {
    CostOrder(hops[u], hops[u], step);
    if v in hops { CostOrder(hops[v], hops[u] + 1, step); }
  }

  lemma AllSeen(adj: Graph, before: map<Key, nat>, after: map<Key, nat>, pq: multiset<(real, Key)>, step: real,
                done: set<Key>, u: Key)
    requires Extends(before, after, Out(adj, u)) && u in after && Frontier(pq, step, after, done, after[u])
    ensures Relaxed(adj, after, u)
  {
  }

  lemma OwesLess(all: set<Key>, before: set<Key>, after: set<Key>)
    requires before <= after <= all
    ensures before == after || all - after < all - before
  {
    if before != after {
      var v :| v in after && v !in before;
      assert v in all - before && v !in all - after;
    }
  }

  lemma SearchStarts(adj: Graph, src: Key, step: real)
    ensures Records(map[src := 0.0], [src], step, map[src := 0]) && Discovered([src], src, map[src := 0])
    ensures Tree(adj, src, map[], map[src := 0]) && AllRelaxed(adj, map[src := 0], {})
    ensures Frontier(multiset{(0.0, src)}, step, map[src := 0], {}, 0)
    ensures (map[src := 0]).Keys <= Nodes(adj, src)
  {
  }

  lemma NodeIsDone(adj: Graph, src: Key, before: map<Key, nat>, after: map<Key, nat>, done: set<Key>, u: Key)
    requires AllRelaxed(adj, before, done) && Extends(before, after, Out(adj, u)) && u in before && Relaxed(adj, after, u)
    requires before.Keys <= Nodes(adj, src)
    ensures AllRelaxed(adj, after, done + {u}) && before.Keys <= after.Keys <= Nodes(adj, src)
  {
    RelaxedStays(adj, before, after, done, Out(adj, u));
  }

  lemma SearchEnds(adj: Graph, src: Key, step: real, dist: map<Key, real>, prev: map<Key, Key>, order: seq<Key>,
                   hops: map<Key, nat>, done: set<Key>, lo: nat)
    requires Records(dist, order, step, hops) && Tree(adj, src, prev, hops)
    requires Frontier(multiset{}, step, hops, done, lo) && AllRelaxed(adj, hops, done)
    ensures ShortestTree(adj, src, step, dist, prev, hops)
  {
    forall u | u in hops ensures Relaxed(adj, hops, u) {
      assert u in done;
    }
  }

  method Dijkstra(adj: Graph, src: Key, step: real)
    returns (dist: map<Key, real>, prev: map<Key, Key>, order: seq<Key>, ghost hops: map<Key, nat>)
    requires step > 0.0
    ensures ShortestTree(adj, src, step, dist, prev, hops)
    ensures Records(dist, order, step, hops) && Discovered(order, src, hops) && dist.Keys <= Nodes(adj, src)
  {
    hide Nodes, Tree, Frontier, Discovered, AllRelaxed, Extends, Relaxed, DistancesRelaxed, NoRepeats, ShortestTree, Cost;
    dist, prev, order := map[src := 0.0], map[], [src];
    var pq := multiset{(0.0, src)};
    hops := map[src := 0];
    ghost var all := Nodes(adj, src);
    ghost var done: set<Key> := {};
    ghost var lo: nat := 0;
    SearchStarts(adj, src, step);
    while pq != multiset{}
      invariant Records(dist, order, step, hops) && Discovered(order, src, hops) && hops.Keys <= all
      invariant Tree(adj, src, prev, hops)
      invariant Frontier(pq, step, hops, done, lo)
      invariant AllRelaxed(adj, hops, done)
      decreases all - hops.Keys, |pq|
    {
      ghost var size := |pq|;
      var e, rest := PopLeast(pq);
      PopKeeps(pq, e, step, hops, done, lo);
      var d, u := e.0, e.1;
      lo := hops[u];
      pq := rest;
      assert |rest| < size;
      // Lazy deletion: a stale entry would be skipped here.
      if !(d > dist[u]) {
        ghost var hops0 := hops;
        pq, dist, prev, order, hops := RelaxFrom(adj, src, step, d, u, pq, dist, prev, order, hops, done + {u});
        NodeIsDone(adj, src, hops0, hops, done, u);
        OwesLess(all, hops0.Keys, hops.Keys);
        done := done + {u};
      }
    }
    SearchEnds(adj, src, step, dist, prev, order, hops, done, lo);
  }

  // ---- what the search means ----

  lemma {:induction false} RoutesAreNoShorter(adj: Graph, src: Key, prev: map<Key, Key>, hops: map<Key, nat>,
                                              p: seq<Key>, dst: Key)
    requires Tree(adj, src, prev, hops) && AllRelaxed(adj, hops, hops.Keys)
    requires IsRoute(adj, p, src, dst)
    ensures dst in hops && hops[dst] <= |p| - 1
    decreases |p|
  {
    if |p| > 1 {
      var q := p[..|p| - 1];
      RoutesAreNoShorter(adj, src, prev, hops, q, q[|q| - 1]);
      assert Relaxed(adj, hops, q[|q| - 1]);
      assert p[|p| - 2 + 1] in Out(adj, p[|p| - 2]);
    }
  }

  /** Predecessor links that strictly lower some rank, so following them ends. */
  ghost predicate Ranked(prev: map<Key, Key>, rank: map<Key, nat>) {
    forall v :: v in prev ==> v in rank && prev[v] in rank && rank[prev[v]] < rank[v]
  }

  ghost function Chain(prev: map<Key, Key>, rank: map<Key, nat>, v: Key): (c: seq<Key>)
    requires Ranked(prev, rank)
    ensures |c| > 0 && c[|c| - 1] == v
    decreases if v in rank then rank[v] else 0
  {
    if v in prev then Chain(prev, rank, prev[v]) + [v] else [v]
  }

  lemma TreeIsRanked(adj: Graph, src: Key, prev: map<Key, Key>, hops: map<Key, nat>)
    requires Tree(adj, src, prev, hops)
    ensures Ranked(prev, hops)
  {
    forall v | v in prev ensures prev[v] in hops && hops[prev[v]] < hops[v] {
      assert Linked(adj, prev, hops, v);
    }
  }

  lemma {:induction false} ChainIsRoute(adj: Graph, src: Key, prev: map<Key, Key>, hops: map<Key, nat>, v: Key)
    requires Tree(adj, src, prev, hops) && Ranked(prev, hops) && v in hops
    ensures IsRoute(adj, Chain(prev, hops, v), src, v)
    ensures |Chain(prev, hops, v)| == hops[v] + 1
    ensures forall i :: 0 <= i <= hops[v] ==> Chain(prev, hops, v)[i] in hops && hops[Chain(prev, hops, v)[i]] == i
    decreases hops[v]
  {
    if v in prev {
      assert Linked(adj, prev, hops, v);
      ChainIsRoute(adj, src, prev, hops, prev[v]);
    }
  }

  /** The distance map holds exactly the reachable nodes, and each distance is
      the step times the fewest edges of any route. */
  lemma DistancesAreShortest(adj: Graph, src: Key, step: real, dist: map<Key, real>, prev: map<Key, Key>,
                             hops: map<Key, nat>, v: Key)
    requires step > 0.0 && ShortestTree(adj, src, step, dist, prev, hops)
    ensures v in dist <==> exists p :: IsRoute(adj, p, src, v)
    ensures v in dist ==> exists p :: IsRoute(adj, p, src, v) && dist[v] == Cost(|p| - 1, step)
    ensures forall p :: IsRoute(adj, p, src, v) ==> v in dist && dist[v] <= Cost(|p| - 1, step)
  {
    if v in dist {
      ChainIsShortestRoute(adj, src, step, dist, prev, hops, v);
    }
    forall p | IsRoute(adj, p, src, v) ensures v in dist && dist[v] <= Cost(|p| - 1, step) {
      RouteBoundsDistance(adj, src, step, dist, prev, hops, p, v);
    }
  }

  lemma RouteBoundsDistance(adj: Graph, src: Key, step: real, dist: map<Key, real>, prev: map<Key, Key>,
                            hops: map<Key, nat>, p: seq<Key>, v: Key)
    requires step > 0.0 && ShortestTree(adj, src, step, dist, prev, hops) && IsRoute(adj, p, src, v)
    ensures v in dist && dist[v] <= Cost(|p| - 1, step)
  {
    RoutesAreNoShorter(adj, src, prev, hops, p, v);
    CostOrder(hops[v], |p| - 1, step);
  }

  /** The reconstructed chain is a repeat-free road route of exactly that length. */
  lemma ChainIsShortestRoute(adj: Graph, src: Key, step: real, dist: map<Key, real>, prev: map<Key, Key>,
                             hops: map<Key, nat>, v: Key)
    requires step > 0.0 && ShortestTree(adj, src, step, dist, prev, hops) && v in dist
    ensures Ranked(prev, hops)
    ensures var c := Chain(prev, hops, v);
            IsRoute(adj, c, src, v) && NoRepeats(c) && dist[v] == Cost(|c| - 1, step)
    ensures forall p :: IsRoute(adj, p, src, v) ==> |Chain(prev, hops, v)| <= |p|
  {
    TreeIsRanked(adj, src, prev, hops);
    ChainIsRoute(adj, src, prev, hops, v);
    forall p | IsRoute(adj, p, src, v) ensures |Chain(prev, hops, v)| <= |p| {
      RoutesAreNoShorter(adj, src, prev, hops, p, v);
    }
  }

  function Reversed(s: seq<Key>): (r: seq<Key>) {
    seq(|s|, i requires 0 <= i < |s| => s[|s| - 1 - i])
  }

  method ChainOf(prev: map<Key, Key>, dst: Key, ghost rank: map<Key, nat>) returns (chain: seq<Key>)
    requires Ranked(prev, rank)
    ensures chain == Chain(prev, rank, dst)
  {
    chain := [dst];
    while chain[|chain| - 1] in prev
      invariant |chain| > 0
      invariant Chain(prev, rank, dst) == Chain(prev, rank, chain[|chain| - 1]) + Reversed(chain[..|chain| - 1])
      decreases var v := chain[|chain| - 1]; if v in rank then rank[v] else 0
    {
      ghost var v := chain[|chain| - 1];
      ghost var shorter := Reversed(chain[..|chain| - 1]);
      chain := chain + [prev[chain[|chain| - 1]]];
      assert Reversed(chain[..|chain| - 1]) == [v] + shorter;
    }
    assert Reversed(chain) == [chain[|chain| - 1]] + Reversed(chain[..|chain| - 1]);
    chain := Reversed(chain);
  }

  // ---- gate statistics of one route ----

  datatype Pose = Pose(at: XY, yaw: real)
  type Positions = map<Key, Pose>

  /** A distance that may be infinite (the minimum over no nodes). */
  datatype Reach = Metres(m: real) | Infinite

  predicate Below(a: Reach, bound: real) {
    a.Metres? && a.m < bound
  }

  predicate Farther(a: Reach, b: Reach) {
    b.Metres? && (a.Infinite? || a.m > b.m)
  }

  ghost predicate SameHeading(w: real, d: real, turns: int) {
    w == d - turns as real * 360.0
  }

  /** Heading change folded to [-180, 180), with the float modulus of Python. */
  function Wrap(d: real): (w: real)
    ensures -180.0 <= w < 180.0
    ensures exists turns :: SameHeading(w, d, turns)
  {
    var turns := ((d + 180.0) / 360.0).Floor;
    assert turns as real <= (d + 180.0) / 360.0 < turns as real + 1.0;
    var w := (d + 180.0) - turns as real * 360.0 - 180.0;
    assert SameHeading(w, d, turns);
    w
  }

  function Abs(v: real): (m: real)
    ensures m >= 0.0 && (m == v || m == -v)
  {
    if v < 0.0 then -v else v
  }

  predicate Placed(positions: Positions, chain: seq<Key>) {
    forall k :: k in chain ==> k in positions
  }

  function Turn(positions: Positions, chain: seq<Key>): (t: real)
    requires Placed(positions, chain)
    ensures t >= 0.0
  {
    if |chain| < 2 then 0.0
    else Turn(positions, chain[..|chain| - 1])
         + Abs(Wrap(positions[chain[|chain| - 1]].yaw - positions[chain[|chain| - 2]].yaw))
  }

  lemma PlacedFront(positions: Positions, front: seq<Key>, u: Key, v: Key)
    requires Placed(positions, front + [u, v])
    ensures Placed(positions, front + [u]) && u in positions && v in positions
  {
    assert front + [u, v] == front + [u] + [v];
    assert u in front + [u, v] && v in front + [u, v];
  }

  lemma TurnOfOne(positions: Positions, k: Key)
    requires Placed(positions, [k])
    ensures Turn(positions, [k]) == 0.0
  {
  }

  lemma TurnLast(positions: Positions, chain: seq<Key>, u: Key, v: Key)
    requires Placed(positions, chain + [u, v]) && Placed(positions, chain + [u])
    requires u in positions && v in positions
    ensures Turn(positions, chain + [u, v])
         == Turn(positions, chain + [u]) + Abs(Wrap(positions[v].yaw - positions[u].yaw))
  {
    var all := chain + [u, v];
    assert all[..|all| - 1] == chain + [u] && all[|all| - 1] == v && all[|all| - 2] == u;
    hide Abs, Wrap;
  }

  lemma LastTwo(a: seq<Key>, k: Key, b: seq<Key>) returns (front: seq<Key>, u: Key, init: seq<Key>)
    requires b != []
    ensures init == b[..|b| - 1]
    ensures [k] + init == front + [u] && [k] + b == front + [u, b[|b| - 1]]
    ensures a + [k] + init == a + front + [u] && a + [k] + b == a + front + [u, b[|b| - 1]]
  {
    init := b[..|b| - 1];
    front, u := ([k] + init)[..|b| - 1], ([k] + init)[|b| - 1];
  }

  /** Heading changes add up along a chain: two nodes turn by the wrapped difference of
      their headings, and stretches that share a node follow each other. */
  lemma {:induction false} TurnAddsUp(positions: Positions, a: seq<Key>, k: Key, b: seq<Key>)
    requires Placed(positions, a + [k] + b) && Placed(positions, a + [k]) && Placed(positions, [k] + b)
    ensures Turn(positions, a + [k] + b) == Turn(positions, a + [k]) + Turn(positions, [k] + b)
    decreases |b|
  {
    hide Turn, Abs, Wrap, Placed;
    if b == [] {
      assert a + [k] + b == a + [k] && [k] + b == [k];
      TurnOfOne(positions, k);
    } else {
      var front, u, init := LastTwo(a, k, b);
      PlacedFront(positions, front, u, b[|b| - 1]);
      PlacedFront(positions, a + front, u, b[|b| - 1]);
      TurnAddsUp(positions, a, k, init);
      TurnLast(positions, front, u, b[|b| - 1]);
      TurnLast(positions, a + front, u, b[|b| - 1]);
    }
  }

  lemma TurnOfTwo(positions: Positions, a: Key, b: Key)
    requires a in positions && b in positions
    ensures Turn(positions, [a, b]) == Abs(Wrap(positions[b].yaw - positions[a].yaw)) && Turn(positions, [a]) == 0.0
  {
    assert [a, b][..1] == [a];
  }

  /** The part of the chain that counts as "before arriving". A skip of zero
      slices to nothing, because `chain[:-0]` is empty. */
  function Prefix(chain: seq<Key>, skip: nat): (p: seq<Key>)
    ensures p <= chain
  {
    if |chain| > skip && skip > 0 then chain[..|chain| - skip] else []
  }

  function Closest(metric: Metric, positions: Positions, prefix: seq<Key>, goal: XY): (r: Reach)
    requires Placed(positions, prefix)
    ensures prefix == [] <==> r.Infinite?
    ensures r.Metres? ==> forall k :: k in prefix ==> r.m <= metric(positions[k].at, goal)
    ensures r.Metres? ==> exists k :: k in prefix && r.m == metric(positions[k].at, goal)
  {
    if prefix == [] then Infinite
    else
      var n := |prefix| - 1;
      var rest := Closest(metric, positions, prefix[..n], goal);
      var here := metric(positions[prefix[n]].at, goal);
      assert prefix == prefix[..n] + [prefix[n]];
      if rest.Infinite? || here < rest.m then Metres(here) else rest
  }

  lemma TurnSnoc(positions: Positions, chain: seq<Key>, i: nat)
    requires Placed(positions, chain) && 0 < i < |chain|
    ensures Turn(positions, chain[..i + 1])
         == Turn(positions, chain[..i]) + Abs(Wrap(positions[chain[i]].yaw - positions[chain[i - 1]].yaw))
  {
    assert chain[..i + 1][..i] == chain[..i];
  }

  lemma ClosestSnoc(metric: Metric, positions: Positions, prefix: seq<Key>, i: nat, goal: XY)
    requires Placed(positions, prefix) && i < |prefix|
    ensures var rest, here := Closest(metric, positions, prefix[..i], goal), metric(positions[prefix[i]].at, goal);
            Closest(metric, positions, prefix[..i + 1], goal) ==
            if rest.Infinite? || here < rest.m then Metres(here) else rest
  {
    assert prefix[..i + 1][..i] == prefix[..i];
  }

  method PathStats(metric: Metric, positions: Positions, prev: map<Key, Key>, dst: Key, skip: nat,
                   ghost rank: map<Key, nat>)
    returns (turn: real, approach: Reach)
    requires Ranked(prev, rank) && dst in positions && Placed(positions, Chain(prev, rank, dst))
    ensures turn == Turn(positions, Chain(prev, rank, dst))
    ensures approach == Closest(metric, positions, Prefix(Chain(prev, rank, dst), skip), positions[dst].at)
  {
    var chain := ChainOf(prev, dst, rank);
    turn := 0.0;
    for i := 1 to |chain|
      invariant turn == Turn(positions, chain[..i])
    {
      TurnSnoc(positions, chain, i);
      turn := turn + Abs(Wrap(positions[chain[i]].yaw - positions[chain[i - 1]].yaw));
    }
    assert chain[..|chain|] == chain;
    var prefix := Prefix(chain, skip);
    var goal := positions[dst].at;
    approach := Infinite;
    for i := 0 to |prefix|
      invariant approach == Closest(metric, positions, prefix[..i], goal)
    {
      ClosestSnoc(metric, positions, prefix, i, goal);
      var here := metric(positions[prefix[i]].at, goal);
      if approach.Infinite? || here < approach.m { approach := Metres(here); }
    }
    assert prefix[..|prefix|] == prefix;
  }
}
