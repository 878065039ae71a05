/** The shortest-path engine (`dijkstra`): repeatedly extract an entry of least cost from the
    queue, skip it when it is stale, otherwise settle its node, record a snapshot and relax the
    node's edges. */
module Dijkstra {

  import opened Options
  import opened Graphs
  import opened Walks
  import opened Frontier
  import opened Sums

  /** A queue entry (`State`): a tentative cost and the node it reaches. */
  datatype Entry = Entry(cost: nat, position: nat)

  /** The key the reversed `Ord` compares: the cost alone. */
  function Cost(e: Entry): nat {
    e.cost
  }

  /** `(p, i)` for every node `i` whose predecessor is `Some(p)`, ascending in `i`: the
      `path_edges` rebuilt before each snapshot. */
  function PathEdges(prev: seq<Option<nat>>): seq<(nat, nat)> {
    PathFrom(prev, 0)
  }

  function PathFrom(prev: seq<Option<nat>>, lo: nat): seq<(nat, nat)>
    requires lo <= |prev|
    decreases |prev| - lo
  {
    if lo == |prev| then []
    else (if prev[lo].Some? then [(prev[lo].value, lo)] else []) + PathFrom(prev, lo + 1)
  }

  /** The pairs from `lo` on are ascending in the node and are exactly the recorded predecessors. */
  lemma {:induction false} PathFromSpec(prev: seq<Option<nat>>, lo: nat)
    requires lo <= |prev|
    ensures var r := PathFrom(prev, lo);
            && (forall i, j :: 0 <= i < j < |r| ==> r[i].1 < r[j].1)
            && (forall i :: 0 <= i < |r| ==> lo <= r[i].1)
            && (forall c :: c in r <==> lo <= c.1 < |prev| && prev[c.1] == Some(c.0))
    decreases |prev| - lo
  {
    if lo < |prev| {
      PathFromSpec(prev, lo + 1);
      var rest := PathFrom(prev, lo + 1);
      var head := if prev[lo].Some? then [(prev[lo].value, lo)] else [];
      var r := PathFrom(prev, lo);
      assert r == head + rest;
      forall c: (nat, nat) | c in r ensures lo <= c.1 < |prev| && prev[c.1] == Some(c.0) {
        if c !in head {
          assert c in rest;
        }
      }
      forall c: (nat, nat) | lo <= c.1 < |prev| && prev[c.1] == Some(c.0) ensures c in r {
        if c.1 != lo {
          assert c in rest;
        }
      }
    }
  }

  /** The path edges are ascending in the node and list exactly the recorded predecessors. */
  lemma PathEdgesSpec(prev: seq<Option<nat>>)
    ensures forall i, j :: 0 <= i < j < |PathEdges(prev)| ==> PathEdges(prev)[i].1 < PathEdges(prev)[j].1
    ensures forall c :: c in PathEdges(prev) <==> c.1 < |prev| && prev[c.1] == Some(c.0)
  {
    PathFromSpec(prev, 0);
  }

  /** The state of the main loop. */
  datatype Run = Run(
    dist: seq<nat>,
    prev: seq<Option<nat>>,
    pq: multiset<Entry>,
    visitedNodes: seq<nat>,
    steps: seq<Step>)

  /** Every distance "infinite" except the start's, which is 0; no predecessors; the start queued
      at cost 0; the initial snapshot. */
  function Init(g: Graph, s: nat): Run
    requires s < |g.adj|
  {
    Run(seq(|g.adj|, _ => U32_MAX)[s := 0], seq(|g.adj|, _ => None), multiset{Entry(0, s)}, [],
        [InitialStep(g, s)])
  }

  /** `u` appended to the visited list unless it is there already. */
  function AddVisited(visited: seq<nat>, u: nat): seq<nat> {
    if u in visited then visited else visited + [u]
  }

  /** The snapshot recorded when `u` is settled. */
  function SettleSnapshot(g: Graph, prev: seq<Option<nat>>, visited: seq<nat>, u: nat): Step
    requires u < |g.adj|
  {
    Step(visited, Some(u), PathEdges(prev), AllCandidates(u, g.adj[u]))
  }

  /** Extract `e` without settling anything: a stale entry. */
  function Drop(r: Run, e: Entry): Run {
    r.(pq := r.pq - multiset{e})
  }

  /** Extract `e` and settle its node, recording a snapshot. */
  function Settle(g: Graph, r: Run, e: Entry): Run
    requires e.position < |g.adj|
  {
    var visited := AddVisited(r.visitedNodes, e.position);
    r.(pq := r.pq - multiset{e}, visitedNodes := visited,
       steps := r.steps + [SettleSnapshot(g, r.prev, visited, e.position)])
  }

  /** The terminal snapshot appended to the trace. */
  function Close(r: Run): seq<Step> {
    r.steps + [Step(r.visitedNodes, None, PathEdges(r.prev), [])]
  }

  /** Each relaxation lowers a distance by at least one and queues one entry; each extraction
      removes one entry. */
  ghost function Progress(r: Run): nat {
    Sum(r.dist) + |r.pq|
  }

  /** `v` got its distance through `u`: an entry of `u` leads to `v` and adds exactly the
      difference. */
  ghost predicate Via(g: Graph, dist: seq<nat>, u: nat, v: nat)
    requires u < |dist| && v < |dist|
  {
    u < |g.adj| && exists e :: e in g.adj[u] && e.to == v && dist[v] == dist[u] + e.weight
  }

  /** The first `k` entries of `x`'s list have been relaxed: none of them offers a shorter way. */
  ghost predicate Relaxed(g: Graph, dist: seq<nat>, x: nat, k: nat)
    requires Valid(g) && |dist| == |g.adj| && x < |g.adj| && k <= |g.adj[x]|
  {
    forall i :: 0 <= i < k ==> dist[g.adj[x][i].to] <= dist[x] + g.adj[x][i].weight
  }

  // The invariant, one predicate per concern, each over the fields it reads.

  /** Sizes, the fixed start, and the "infinite" cap. */
  ghost predicate Shape(g: Graph, s: nat, dist: seq<nat>, prev: seq<Option<nat>>) {
    && Valid(g) && s < |g.adj|
    && |dist| == |g.adj| && |prev| == |g.adj|
    && dist[s] == 0 && prev[s] == None
    && (forall v :: 0 <= v < |dist| ==> dist[v] <= U32_MAX)
  }

  ghost predicate InRange(g: Graph, visited: seq<nat>) {
    forall i :: 0 <= i < |visited| ==> visited[i] < |g.adj|
  }

  ghost predicate Distinct(visited: seq<nat>) {
    forall i, j :: 0 <= i < j < |visited| ==> visited[i] != visited[j]
  }

  /** Queue entries are in range, never cheaper than their node's distance, below the cap, and
      queued once: each push strictly lowers its node's distance, so no entry is pushed twice.
      An entry of a settled node is stale, so a node is settled only once. */
  ghost predicate Sound(dist: seq<nat>, pq: multiset<Entry>, visited: seq<nat>) {
    forall e :: e in pq ==>
      && e.position < |dist| && dist[e.position] <= e.cost < U32_MAX && pq[e] == 1
      && (e.position in visited ==> dist[e.position] < e.cost)
  }

  /** Every unsettled node with a finite distance is queued at that distance. */
  ghost predicate Complete(dist: seq<nat>, pq: multiset<Entry>, visited: seq<nat>) {
    forall v :: 0 <= v < |dist| && v !in visited && dist[v] < U32_MAX ==> Entry(dist[v], v) in pq
  }

  /** The level `m` separates settled nodes from queued entries: none of the former is farther,
      none of the latter cheaper. */
  ghost predicate Level(dist: seq<nat>, pq: multiset<Entry>, visited: seq<nat>, m: nat)
    requires forall i :: 0 <= i < |visited| ==> visited[i] < |dist|
  {
    && (forall i :: 0 <= i < |visited| ==> dist[visited[i]] <= m)
    && (forall e :: e in pq ==> m <= e.cost)
  }

  /** Finite distances are weights of real walks from the start. */
  ghost predicate Walked(g: Graph, s: nat, dist: seq<nat>) {
    forall v {:trigger WalkOf(g, s, v, dist[v])} :: 0 <= v < |dist| && dist[v] < U32_MAX ==> WalkOf(g, s, v, dist[v])
  }

  /** Predecessors are settled nodes through which the distance was obtained. */
  ghost predicate Preds(g: Graph, s: nat, dist: seq<nat>, prev: seq<Option<nat>>, visited: seq<nat>)
    requires |prev| == |dist|
  {
    forall v :: 0 <= v < |prev| && prev[v].Some? ==>
      v != s && prev[v].value < |dist| && prev[v].value in visited && Via(g, dist, prev[v].value, v)
  }

  /** A node other than the start has a predecessor exactly when its distance is finite. */
  ghost predicate Finite(s: nat, dist: seq<nat>, prev: seq<Option<nat>>)
    requires |prev| == |dist|
  {
    forall v {:trigger prev[v]} :: 0 <= v < |prev| && v != s ==> (prev[v].Some? <==> dist[v] < U32_MAX)
  }

  /** Settled nodes carry finite distances that no walk undercuts. */
  ghost predicate Optimal(g: Graph, s: nat, dist: seq<nat>, visited: seq<nat>)
    requires forall i :: 0 <= i < |visited| ==> visited[i] < |dist|
  {
    forall i :: 0 <= i < |visited| ==> dist[visited[i]] < U32_MAX && AtLeast(g, s, visited[i], dist[visited[i]])
  }

  /** Nodes are settled in non-decreasing order of distance. */
  ghost predicate Ordered(dist: seq<nat>, visited: seq<nat>)
    requires forall i :: 0 <= i < |visited| ==> visited[i] < |dist|
  {
    forall i :: 0 < i < |visited| ==> dist[visited[i - 1]] <= dist[visited[i]]
  }

  /** Every settled node has had all its edges relaxed. */
  ghost predicate Closed(g: Graph, dist: seq<nat>, visited: seq<nat>)
    requires Valid(g) && |dist| == |g.adj| && InRange(g, visited)
  {
    forall i :: 0 <= i < |visited| ==> Relaxed(g, dist, visited[i], |g.adj[visited[i]]|)
  }

  /** While `u`'s edges are being relaxed: every other settled node is done, `u` its first `k`. */
  ghost predicate ClosedExcept(g: Graph, dist: seq<nat>, visited: seq<nat>, u: nat, k: nat)
    requires Valid(g) && |dist| == |g.adj| && InRange(g, visited) && u < |g.adj|
  {
    && (forall i :: 0 <= i < |visited| && visited[i] != u ==>
          Relaxed(g, dist, visited[i], |g.adj[visited[i]]|))
    && k <= |g.adj[u]| && Relaxed(g, dist, u, k)
  }

  /** A snapshot taken when `u` is settled: `u` is current and among the visited nodes listed so
      far (a prefix of `visited`), every edge of `u` is a candidate, and the path edges are graph
      edges hanging below visited nodes, ascending in the child. */
  ghost predicate SettleStep(g: Graph, step: Step, visited: seq<nat>) {
    && step.currentNode.Some?
    && var u := step.currentNode.value;
    && u < |g.adj|
    && u in step.visitedNodes
    && step.visitedNodes <= visited
    && step.candidateEdges == AllCandidates(u, g.adj[u])
    && (forall i, j :: 0 <= i < j < |step.edgesInPath| ==> step.edgesInPath[i].1 < step.edgesInPath[j].1)
    && (forall c :: c in step.edgesInPath ==> c.0 in step.visitedNodes && IsGraphEdge(g, c.0, c.1))
  }

  /** The snapshots so far: the initial one, then exactly one per settlement, in settlement
      order, each showing the nodes settled up to then. */
  ghost predicate Trace(g: Graph, s: nat, steps: seq<Step>, visited: seq<nat>)
    requires s < |g.adj|
  {
    && |steps| == |visited| + 1 && steps[0] == InitialStep(g, s)
    && (forall k :: 0 < k < |steps| ==>
          && SettleStep(g, steps[k], visited)
          && steps[k].currentNode == Some(visited[k - 1]) && steps[k].visitedNodes == visited[..k])
  }

  /** The facts a relaxation can change, over the fields it reads. */
  ghost predicate Core(g: Graph, s: nat, dist: seq<nat>, prev: seq<Option<nat>>, pq: multiset<Entry>,
                       visited: seq<nat>) {
    && Shape(g, s, dist, prev) && InRange(g, visited)
    && Sound(dist, pq, visited) && Complete(dist, pq, visited)
    && Walked(g, s, dist) && Preds(g, s, dist, prev, visited) && Finite(s, dist, prev)
  }

  /** The facts about the visited list and the trace, which only a settlement changes. */
  ghost predicate Fixed(g: Graph, s: nat, r: Run) {
    && Shape(g, s, r.dist, r.prev) && InRange(g, r.visitedNodes)
    && Distinct(r.visitedNodes)
    && Optimal(g, s, r.dist, r.visitedNodes) && Ordered(r.dist, r.visitedNodes)
    && Trace(g, s, r.steps, r.visitedNodes)
  }

  /** What holds at the head of the main loop, with level `m`. */
  ghost predicate Inv(g: Graph, s: nat, r: Run, m: nat) {
    && Core(g, s, r.dist, r.prev, r.pq, r.visitedNodes) && Fixed(g, s, r)
    && Level(r.dist, r.pq, r.visitedNodes, m)
    && Closed(g, r.dist, r.visitedNodes)
  }

  /** What holds while the settled node `u`, extracted at the finite cost `c`, has its first `k`
      edges relaxed. */
  ghost predicate Relaxing(g: Graph, s: nat, dist: seq<nat>, prev: seq<Option<nat>>, pq: multiset<Entry>,
                           visited: seq<nat>, u: nat, c: nat, k: nat) {
    && Core(g, s, dist, prev, pq, visited)
    && Level(dist, pq, visited, c)
    && u < |g.adj| && u in visited && dist[u] == c < U32_MAX
    && ClosedExcept(g, dist, visited, u, k)
  }

  /** The visited-list facts depend on the distances of visited nodes only. */
  lemma FixedCarries(g: Graph, s: nat, r: Run, r': Run)
    requires Fixed(g, s, r) && Shape(g, s, r'.dist, r'.prev)
    requires r'.visitedNodes == r.visitedNodes && r'.steps == r.steps
    requires forall i :: 0 <= i < |r.visitedNodes| ==> r'.dist[r.visitedNodes[i]] == r.dist[r.visitedNodes[i]]
    ensures Fixed(g, s, r')
  {
    var vn := r.visitedNodes;
    forall i | 0 <= i < |vn| ensures r'.dist[vn[i]] < U32_MAX && AtLeast(g, s, vn[i], r'.dist[vn[i]]) {
      assert r.dist[vn[i]] < U32_MAX && AtLeast(g, s, vn[i], r.dist[vn[i]]);
    }
    forall i | 0 < i < |vn| ensures r'.dist[vn[i - 1]] <= r'.dist[vn[i]] {
      assert r.dist[vn[i - 1]] <= r.dist[vn[i]];
    }
  }

  lemma InitKeeps(g: Graph, s: nat)
    requires Valid(g) && s < |g.adj|
    ensures Inv(g, s, Init(g, s), 0)
  {
    var r := Init(g, s);
    WalkOfStart(g, s);
    assert Walked(g, s, r.dist);
  }

  /** The heart of the correctness argument: follow a walk from the start to the first node that
      is not settled. The hop into it comes from a settled node whose edges are relaxed, so that
      node's distance, and hence its queue entry, is no larger than the walk's weight; every
      queued cost is at least `m`. */
  lemma {:induction false} ExitBound(g: Graph, s: nat, r: Run, m: nat, p: seq<Hop>, v: nat)
    requires Shape(g, s, r.dist, r.prev) && InRange(g, r.visitedNodes)
    requires Complete(r.dist, r.pq, r.visitedNodes) && Optimal(g, s, r.dist, r.visitedNodes)
    requires Closed(g, r.dist, r.visitedNodes)
    requires forall e :: e in r.pq ==> m <= e.cost
    requires m <= U32_MAX
    requires IsWalk(g, s, p, v)
    ensures v !in r.visitedNodes ==> m <= WalkWeight(p)
    decreases |p|
  {
    if |p| == 0 {
      if s !in r.visitedNodes {
        assert Entry(r.dist[s], s) in r.pq;
      }
    } else if v !in r.visitedNodes {
      var q, h := p[..|p| - 1], p[|p| - 1];
      var x := h.from;
      assert WalkWeight(p) == WalkWeight(q) + h.edge.weight;
      if x !in r.visitedNodes {
        ExitBound(g, s, r, m, q, x);
      } else {
        var i :| 0 <= i < |r.visitedNodes| && r.visitedNodes[i] == x;
        assert r.dist[x] <= WalkWeight(q);
        var j :| 0 <= j < |g.adj[x]| && g.adj[x][j] == h.edge;
        assert Relaxed(g, r.dist, x, |g.adj[x]|);
        if r.dist[v] < U32_MAX {
          assert Entry(r.dist[v], v) in r.pq;
        }
      }
    }
  }

  /** A stale entry is dropped and nothing else changes. */
  lemma DropKeeps(g: Graph, s: nat, r: Run, m: nat, e: Entry)
    requires Inv(g, s, r, m) && e in r.pq && e.cost > r.dist[e.position]
    ensures Inv(g, s, Drop(r, e), m)
    ensures Progress(Drop(r, e)) < Progress(r)
  {
    var pq := r.pq - multiset{e};
    forall v | 0 <= v < |r.dist| && v !in r.visitedNodes && r.dist[v] < U32_MAX
      ensures Entry(r.dist[v], v) in pq
    {
      assert Entry(r.dist[v], v) in r.pq;
      assert Entry(r.dist[v], v) != e;
    }
  }

  /** An extracted entry of least cost that is not stale gives its node's final distance, and
      it is no closer than the level. */
  lemma SettleOptimal(g: Graph, s: nat, r: Run, m: nat, e: Entry)
    requires Inv(g, s, r, m) && IsMin(r.pq, Cost, e) && e.cost <= r.dist[e.position]
    ensures e.position < |g.adj| && r.dist[e.position] == e.cost < U32_MAX && m <= e.cost
    ensures AtLeast(g, s, e.position, e.cost)
  {
    var u := e.position;
    assert u !in r.visitedNodes;
    forall p | IsWalk(g, s, p, u) ensures e.cost <= WalkWeight(p) {
      ExitBound(g, s, r, e.cost, p, u);
    }
  }

  /** What settling does to the visited list. */
  lemma AddVisitedFacts(g: Graph, visited: seq<nat>, u: nat)
    requires InRange(g, visited) && Distinct(visited) && u < |g.adj|
    ensures InRange(g, AddVisited(visited, u)) && Distinct(AddVisited(visited, u))
    ensures visited <= AddVisited(visited, u) && u in AddVisited(visited, u)
  {
  }

  /** Removing the settled node's own entry leaves every other unsettled node queued. */
  lemma SettleComplete(dist: seq<nat>, pq: multiset<Entry>, visited: seq<nat>, e: Entry)
    requires Complete(dist, pq, visited) && e.position < |dist| && dist[e.position] == e.cost
    ensures Complete(dist, pq - multiset{e}, AddVisited(visited, e.position))
  {
    var u, pq' := e.position, pq - multiset{e};
    forall v | 0 <= v < |dist| && v !in AddVisited(visited, u) && dist[v] < U32_MAX
      ensures Entry(dist[v], v) in pq'
    {
      assert Entry(dist[v], v) in pq;
      assert Entry(dist[v], v) != e;
    }
  }

  lemma SettleLevel(dist: seq<nat>, pq: multiset<Entry>, visited: seq<nat>, m: nat, e: Entry)
    requires forall i :: 0 <= i < |visited| ==> visited[i] < |dist|
    requires Level(dist, pq, visited, m)
    requires IsMin(pq, Cost, e) && e.position < |dist| && dist[e.position] == e.cost && m <= e.cost
    ensures Level(dist, pq - multiset{e}, AddVisited(visited, e.position), e.cost)
  {
  }

  lemma SettleOrdered(dist: seq<nat>, visited: seq<nat>, m: nat, u: nat)
    requires forall i :: 0 <= i < |visited| ==> visited[i] < |dist|
    requires forall i :: 0 <= i < |visited| ==> dist[visited[i]] <= m
    requires Ordered(dist, visited) && u < |dist| && m <= dist[u]
    ensures Ordered(dist, AddVisited(visited, u))
  {
  }

  /** The extracted entry was the only one at its node's distance, so every entry of that node
      left behind is stale; and the node had not been settled before. */
  lemma SettleStale(dist: seq<nat>, pq: multiset<Entry>, visited: seq<nat>, e: Entry)
    requires Sound(dist, pq, visited)
    requires e in pq && e.position < |dist| && dist[e.position] == e.cost
    ensures e.position !in visited && AddVisited(visited, e.position) == visited + [e.position]
    ensures Sound(dist, pq - multiset{e}, AddVisited(visited, e.position))
  {
    var u, pq' := e.position, pq - multiset{e};
    assert pq[e] == 1;
    forall f | f in pq'
      ensures && f.position < |dist| && dist[f.position] <= f.cost < U32_MAX && pq'[f] == 1
              && (f.position in AddVisited(visited, u) ==> dist[f.position] < f.cost)
    {
      assert f in pq;
      if f.position == u {
        assert f != e;
      }
    }
  }

  /** Settling keeps the queue facts, with the extracted cost as the new level. */
  lemma SettleQueue(dist: seq<nat>, pq: multiset<Entry>, visited: seq<nat>, m: nat, e: Entry)
    requires forall i :: 0 <= i < |visited| ==> visited[i] < |dist|
    requires Sound(dist, pq, visited) && Complete(dist, pq, visited) && Level(dist, pq, visited, m)
    requires Ordered(dist, visited)
    requires IsMin(pq, Cost, e) && e.position < |dist| && dist[e.position] == e.cost && m <= e.cost
    ensures e.position !in visited && AddVisited(visited, e.position) == visited + [e.position]
    ensures Complete(dist, pq - multiset{e}, AddVisited(visited, e.position))
    ensures Sound(dist, pq - multiset{e}, AddVisited(visited, e.position))
    ensures Level(dist, pq - multiset{e}, AddVisited(visited, e.position), e.cost)
    ensures Ordered(dist, AddVisited(visited, e.position))
  {
    SettleStale(dist, pq, visited, e);
    SettleComplete(dist, pq, visited, e);
    SettleLevel(dist, pq, visited, m, e);
    SettleOrdered(dist, visited, m, e.position);
  }

  /** Settling keeps optimality, the predecessor facts, and starts `u`'s relaxation. */
  lemma SettleSettled(g: Graph, s: nat, dist: seq<nat>, prev: seq<Option<nat>>, visited: seq<nat>, u: nat)
    requires Shape(g, s, dist, prev) && InRange(g, visited) && u < |g.adj|
    requires Optimal(g, s, dist, visited) && Preds(g, s, dist, prev, visited)
    requires Closed(g, dist, visited)
    requires dist[u] < U32_MAX && AtLeast(g, s, u, dist[u])
    ensures InRange(g, AddVisited(visited, u))
    ensures Optimal(g, s, dist, AddVisited(visited, u))
    ensures Preds(g, s, dist, prev, AddVisited(visited, u))
    ensures ClosedExcept(g, dist, AddVisited(visited, u), u, 0)
  {
  }

  /** The settlement snapshot keeps the trace shape. */
  lemma SettleTrace(g: Graph, s: nat, dist: seq<nat>, prev: seq<Option<nat>>, steps: seq<Step>,
                    visited: seq<nat>, u: nat)
    requires Shape(g, s, dist, prev) && u < |g.adj| && u !in visited
    requires Preds(g, s, dist, prev, visited) && Trace(g, s, steps, visited)
    ensures Trace(g, s, steps + [SettleSnapshot(g, prev, AddVisited(visited, u), u)], AddVisited(visited, u))
  {
    var visited' := visited + [u];
    var step := SettleSnapshot(g, prev, visited', u);
    var steps' := steps + [step];
    PathEdgesSpec(prev);
    forall c | c in step.edgesInPath ensures c.0 in visited' && IsGraphEdge(g, c.0, c.1) {
      assert Via(g, dist, c.0, c.1);
    }
    assert SettleStep(g, step, visited');
    assert visited'[..|visited'|] == visited';
    forall k | 0 < k < |steps'|
      ensures && SettleStep(g, steps'[k], visited')
              && steps'[k].currentNode == Some(visited'[k - 1]) && steps'[k].visitedNodes == visited'[..k]
    {
      if k < |steps| {
        assert steps'[k] == steps[k];
        assert visited'[..k] == visited[..k];
        assert SettleStep(g, steps[k], visited);
      }
    }
  }

  /** Settling the extracted node starts the relaxation of its edges. */
  lemma SettleKeeps(g: Graph, s: nat, r: Run, m: nat, e: Entry)
    requires Inv(g, s, r, m) && IsMin(r.pq, Cost, e) && e.cost <= r.dist[e.position]
    ensures e.position < |g.adj|
    ensures var r' := Settle(g, r, e);
            Relaxing(g, s, r'.dist, r'.prev, r'.pq, r'.visitedNodes, e.position, e.cost, 0) && Fixed(g, s, r')
    ensures Progress(Settle(g, r, e)) < Progress(r)
  {
    SettleOptimal(g, s, r, m, e);
    var u := e.position;
    AddVisitedFacts(g, r.visitedNodes, u);
    SettleQueue(r.dist, r.pq, r.visitedNodes, m, e);
    SettleSettled(g, s, r.dist, r.prev, r.visitedNodes, u);
    SettleTrace(g, s, r.dist, r.prev, r.steps, r.visitedNodes, u);
  }

  /** A successful relaxation keeps the queue facts. */
  lemma LowerQueue(dist: seq<nat>, pq: multiset<Entry>, visited: seq<nat>, c: nat, v: nat, d: nat)
    requires forall i :: 0 <= i < |visited| ==> visited[i] < |dist|
    requires Sound(dist, pq, visited) && Complete(dist, pq, visited) && Level(dist, pq, visited, c)
    requires v < |dist| && v !in visited && c <= d < dist[v] <= U32_MAX
    ensures Sound(dist[v := d], pq + multiset{Entry(d, v)}, visited)
    ensures Complete(dist[v := d], pq + multiset{Entry(d, v)}, visited)
    ensures Level(dist[v := d], pq + multiset{Entry(d, v)}, visited, c)
  {
    assert Entry(d, v) !in pq;
  }

  /** A successful relaxation keeps the walk and predecessor facts. */
  lemma LowerWitness(g: Graph, s: nat, dist: seq<nat>, prev: seq<Option<nat>>, visited: seq<nat>,
                     u: nat, k: nat)
    requires Shape(g, s, dist, prev) && InRange(g, visited)
    requires Walked(g, s, dist) && Preds(g, s, dist, prev, visited) && Finite(s, dist, prev)
    requires u < |g.adj| && u in visited && dist[u] < U32_MAX && k < |g.adj[u]|
    requires g.adj[u][k].to !in visited
    requires dist[u] + g.adj[u][k].weight < dist[g.adj[u][k].to]
    ensures var e := g.adj[u][k];
            var dist', prev' := dist[e.to := dist[u] + e.weight], prev[e.to := Some(u)];
            && Shape(g, s, dist', prev')
            && Walked(g, s, dist') && Preds(g, s, dist', prev', visited) && Finite(s, dist', prev')
  {
    var e := g.adj[u][k];
    var v, d := e.to, dist[u] + e.weight;
    var dist', prev' := dist[v := d], prev[v := Some(u)];
    assert v != s && v != u;
    assert e in g.adj[u];
    WalkOfStep(g, s, u, dist[u], e);
    assert Via(g, dist', u, v);
    forall x | 0 <= x < |prev'| && prev'[x].Some?
      ensures x != s && prev'[x].value < |dist'| && prev'[x].value in visited && Via(g, dist', prev'[x].value, x)
    {
      if x != v {
        var y := prev[x].value;
        assert Via(g, dist, y, x);
        assert y != v;
      }
    }
  }

  /** A successful relaxation keeps the settled nodes' distances and relaxes one more of `u`'s
      entries. */
  lemma LowerClosed(g: Graph, dist: seq<nat>, visited: seq<nat>, u: nat, k: nat)
    requires Valid(g) && |dist| == |g.adj| && InRange(g, visited)
    requires u < |g.adj| && u in visited && k < |g.adj[u]| && ClosedExcept(g, dist, visited, u, k)
    requires g.adj[u][k].to !in visited
    requires dist[u] + g.adj[u][k].weight < dist[g.adj[u][k].to]
    ensures var e := g.adj[u][k];
            var dist' := dist[e.to := dist[u] + e.weight];
            && (forall i :: 0 <= i < |visited| ==> dist'[visited[i]] == dist[visited[i]])
            && ClosedExcept(g, dist', visited, u, k + 1)
  {
    var e := g.adj[u][k];
    var dist' := dist[e.to := dist[u] + e.weight];
    assert forall i :: 0 <= i < |visited| ==> dist'[visited[i]] == dist[visited[i]];
    forall i | 0 <= i < |visited| && visited[i] != u
      ensures Relaxed(g, dist', visited[i], |g.adj[visited[i]]|)
    {
      assert Relaxed(g, dist, visited[i], |g.adj[visited[i]]|);
    }
    assert Relaxed(g, dist, u, k);
  }

  /** A relaxation trades at least one unit of distance for one queued entry. */
  lemma LowerProgress(dist: seq<nat>, pq: multiset<Entry>, v: nat, d: nat)
    requires v < |dist| && d < dist[v]
    ensures Sum(dist[v := d]) + |pq + multiset{Entry(d, v)}| <= Sum(dist) + |pq|
  {
    SumUpdate(dist, v, d);
  }

  /** The target of an improving relaxation is not settled: settled nodes are within the level. */
  lemma LowerTarget(g: Graph, s: nat, dist: seq<nat>, prev: seq<Option<nat>>, pq: multiset<Entry>,
                    visited: seq<nat>, u: nat, c: nat, k: nat, v: nat, w: nat)
    requires Relaxing(g, s, dist, prev, pq, visited, u, c, k)
    requires k < |g.adj[u]| && g.adj[u][k].to == v && g.adj[u][k].weight == w
    requires c + w < dist[v]
    ensures v < |dist| && v !in visited
  {
    assert forall i :: 0 <= i < |visited| ==> visited[i] != v;
  }

  /** An improving relaxation keeps the facts a relaxation can change. */
  lemma LowerCore(g: Graph, s: nat, dist: seq<nat>, prev: seq<Option<nat>>, pq: multiset<Entry>,
                  visited: seq<nat>, u: nat, c: nat, k: nat, v: nat, w: nat)
    requires Relaxing(g, s, dist, prev, pq, visited, u, c, k)
    requires k < |g.adj[u]| && g.adj[u][k].to == v && g.adj[u][k].weight == w
    requires c + w < dist[v]
    ensures Core(g, s, dist[v := c + w], prev[v := Some(u)], pq + multiset{Entry(c + w, v)}, visited)
  {
    LowerTarget(g, s, dist, prev, pq, visited, u, c, k, v, w);
    LowerQueue(dist, pq, visited, c, v, c + w);
    LowerWitness(g, s, dist, prev, visited, u, k);
  }

  /** An improving relaxation keeps the level, leaves settled nodes alone, and relaxes one more of
      `u`'s entries. */
  lemma LowerLevel(g: Graph, s: nat, dist: seq<nat>, prev: seq<Option<nat>>, pq: multiset<Entry>,
                   visited: seq<nat>, u: nat, c: nat, k: nat, v: nat, w: nat)
    requires Relaxing(g, s, dist, prev, pq, visited, u, c, k)
    requires k < |g.adj[u]| && g.adj[u][k].to == v && g.adj[u][k].weight == w
    requires c + w < dist[v]
    ensures Level(dist[v := c + w], pq + multiset{Entry(c + w, v)}, visited, c)
    ensures dist[v := c + w][u] == c
    ensures forall i :: 0 <= i < |visited| ==> dist[v := c + w][visited[i]] == dist[visited[i]]
    ensures ClosedExcept(g, dist[v := c + w], visited, u, k + 1)
  {
    LowerTarget(g, s, dist, prev, pq, visited, u, c, k, v, w);
    LowerQueue(dist, pq, visited, c, v, c + w);
    LowerClosed(g, dist, visited, u, k);
  }

  /** A successful relaxation of `u`'s `k`-th entry, leading to `v` with weight `w`, keeps
      everything, relaxes one more entry, and leaves settled nodes alone. */
  lemma LowerKeeps(g: Graph, s: nat, dist: seq<nat>, prev: seq<Option<nat>>, pq: multiset<Entry>,
                   visited: seq<nat>, u: nat, c: nat, k: nat, v: nat, w: nat)
    requires Relaxing(g, s, dist, prev, pq, visited, u, c, k)
    requires k < |g.adj[u]| && g.adj[u][k].to == v && g.adj[u][k].weight == w
    requires c + w < dist[v]
    ensures Relaxing(g, s, dist[v := c + w], prev[v := Some(u)], pq + multiset{Entry(c + w, v)}, visited, u, c, k + 1)
    ensures Sum(dist[v := c + w]) + |pq + multiset{Entry(c + w, v)}| <= Sum(dist) + |pq|
    ensures forall i :: 0 <= i < |visited| ==> dist[v := c + w][visited[i]] == dist[visited[i]]
  {
    LowerProgress(dist, pq, v, c + w);
    LowerCore(g, s, dist, prev, pq, visited, u, c, k, v, w);
    LowerLevel(g, s, dist, prev, pq, visited, u, c, k, v, w);
  }

  /** A relaxation that does not improve leaves the state alone and relaxes one more entry. */
  lemma SkipKeeps(g: Graph, s: nat, dist: seq<nat>, prev: seq<Option<nat>>, pq: multiset<Entry>,
                  visited: seq<nat>, u: nat, c: nat, k: nat)
    requires Relaxing(g, s, dist, prev, pq, visited, u, c, k) && k < |g.adj[u]|
    requires c + g.adj[u][k].weight >= dist[g.adj[u][k].to]
    ensures Relaxing(g, s, dist, prev, pq, visited, u, c, k + 1)
  {
    assert Relaxed(g, dist, u, k);
  }

  /** An improvement lowers one distance, changes only its predecessor, to the settled node `u`,
      and trades at least one unit of distance for the one entry it queues. */
  lemma LowerEffect(dist: seq<nat>, prev: seq<Option<nat>>, pq: multiset<Entry>, visited: seq<nat>,
                    dist': seq<nat>, prev': seq<Option<nat>>, pq': multiset<Entry>, u: nat, v: nat, d: nat)
    requires |prev| == |dist| && v < |dist| && d < dist[v] && v !in visited
    requires dist' == dist[v := d] && prev' == prev[v := Some(u)] && pq' == pq + multiset{Entry(d, v)}
    ensures dist'[v] == d
    ensures forall i :: 0 <= i < |visited| && visited[i] < |dist| ==> dist'[visited[i]] == dist[visited[i]]
    ensures forall x :: 0 <= x < |dist| ==>
      && dist'[x] <= dist[x]
      && (prev'[x] != prev[x] ==> dist'[x] < dist[x] && prev'[x] == Some(u))
    ensures Sum(dist') + |pq'| <= Sum(dist) + |pq|
  {
    LowerProgress(dist, pq, v, d);
    assert forall i :: 0 <= i < |visited| ==> visited[i] != v;
  }

  /** The improving case of a relaxation: lower the target's distance, make `u` its predecessor
      and queue it. */
  method Lower(g: Graph, ghost s: nat, dist: seq<nat>, prev: seq<Option<nat>>, pq: multiset<Entry>,
               ghost visited: seq<nat>, u: nat, c: nat, k: nat)
    returns (dist': seq<nat>, prev': seq<Option<nat>>, pq': multiset<Entry>)
    requires Relaxing(g, s, dist, prev, pq, visited, u, c, k) && k < |g.adj[u]|
    requires c + g.adj[u][k].weight < dist[g.adj[u][k].to]
    ensures Relaxing(g, s, dist', prev', pq', visited, u, c, k + 1)
    ensures Sum(dist') + |pq'| <= Sum(dist) + |pq|
    ensures forall i :: 0 <= i < |visited| ==> dist'[visited[i]] == dist[visited[i]]
    ensures forall x :: 0 <= x < |dist| ==>
      && dist'[x] <= dist[x]
      && (prev'[x] != prev[x] ==> dist'[x] < dist[x] && prev'[x] == Some(u))
    ensures var e := g.adj[u][k]; dist'[e.to] <= c + e.weight
  {
    var e := g.adj[u][k];
    LowerKeeps(g, s, dist, prev, pq, visited, u, c, k, e.to, e.weight);
    LowerTarget(g, s, dist, prev, pq, visited, u, c, k, e.to, e.weight);
    dist', prev', pq' := dist[e.to := c + e.weight], prev[e.to := Some(u)], pq + multiset{Entry(c + e.weight, e.to)};
    LowerEffect(dist, prev, pq, visited, dist', prev', pq', u, e.to, c + e.weight);
  }

  /** One relaxation (the body of `for edge in &graph.adj[position]`): when going through `u`
      improves on the target's distance, record the improvement and queue the target. */
  method RelaxOne(g: Graph, ghost s: nat, dist: seq<nat>, prev: seq<Option<nat>>, pq: multiset<Entry>,
                  ghost visited: seq<nat>, u: nat, c: nat, k: nat)
    returns (dist': seq<nat>, prev': seq<Option<nat>>, pq': multiset<Entry>)
    requires Relaxing(g, s, dist, prev, pq, visited, u, c, k) && k < |g.adj[u]|
    ensures Relaxing(g, s, dist', prev', pq', visited, u, c, k + 1)
    ensures Sum(dist') + |pq'| <= Sum(dist) + |pq|
    ensures forall i :: 0 <= i < |visited| ==> dist'[visited[i]] == dist[visited[i]]
    ensures forall x :: 0 <= x < |dist| ==>
      && dist'[x] <= dist[x]
      && (prev'[x] != prev[x] ==> dist'[x] < dist[x] && prev'[x] == Some(u))
    ensures var e := g.adj[u][k]; dist'[e.to] <= c + e.weight
  {
    var e := g.adj[u][k];
    if c + e.weight < dist[e.to] {
      dist', prev', pq' := Lower(g, s, dist, prev, pq, visited, u, c, k);
    } else {
      SkipKeeps(g, s, dist, prev, pq, visited, u, c, k);
      dist', prev', pq' := dist, prev, pq;
    }
  }

  /** All of `u`'s entries relaxed: the main invariant again, at level `c`. */
  lemma RelaxDone(g: Graph, s: nat, r: Run, r': Run, u: nat, c: nat)
    requires Fixed(g, s, r) && u < |g.adj|
    requires Relaxing(g, s, r'.dist, r'.prev, r'.pq, r'.visitedNodes, u, c, |g.adj[u]|)
    requires r'.visitedNodes == r.visitedNodes && r'.steps == r.steps
    requires forall i :: 0 <= i < |r.visitedNodes| ==> r'.dist[r.visitedNodes[i]] == r.dist[r.visitedNodes[i]]
    ensures Inv(g, s, r', c)
  {
    FixedCarries(g, s, r, r');
  }

  /** The relaxation loop over `u`'s list: afterwards every settled node is closed again, at level
      `c`. */
  method RelaxEdges(g: Graph, ghost s: nat, r: Run, u: nat, c: nat) returns (r': Run)
    requires Relaxing(g, s, r.dist, r.prev, r.pq, r.visitedNodes, u, c, 0) && Fixed(g, s, r)
    ensures Inv(g, s, r', c)
    ensures Progress(r') <= Progress(r)
  {
    var dist: seq<nat>, prev: seq<Option<nat>>, pq: multiset<Entry> := r.dist, r.prev, r.pq;
    var k := 0;
    while k < |g.adj[u]|
      invariant k <= |g.adj[u]|
      invariant Relaxing(g, s, dist, prev, pq, r.visitedNodes, u, c, k)
      invariant Sum(dist) + |pq| <= Progress(r)
      invariant forall i :: 0 <= i < |r.visitedNodes| ==> dist[r.visitedNodes[i]] == r.dist[r.visitedNodes[i]]
    {
      dist, prev, pq := RelaxOne(g, s, dist, prev, pq, r.visitedNodes, u, c, k);
      k := k + 1;
    }
    r' := r.(dist := dist, prev := prev, pq := pq);
    RelaxDone(g, s, r, r', u, c);
  }

  /** One iteration of the main loop (`while let Some(State { cost, position }) = pq.pop()`):
      extract an entry of least cost; skip it when stale, otherwise settle its node and relax its
      edges. The level rises to the extracted cost. */
  method Iterate(g: Graph, ghost s: nat, r: Run, ghost m: nat) returns (r': Run, ghost m': nat)
    requires Inv(g, s, r, m) && |r.pq| > 0
    ensures Inv(g, s, r', m')
    ensures Progress(r') < Progress(r)
  {
    ghost var least := MinExists(r.pq, Cost);
    var e :| e in r.pq && IsMin(r.pq, Cost, e);
    if e.cost > r.dist[e.position] {
      DropKeeps(g, s, r, m, e);
      r', m' := Drop(r, e), m;
    } else {
      SettleKeeps(g, s, r, m, e);
      r' := Settle(g, r, e);
      r' := RelaxEdges(g, s, r', e.position, e.cost);
      m' := e.cost;
    }
  }

  /** Adjacent order gives order between any two settled nodes. */
  lemma {:induction false} OrderedChain(dist: seq<nat>, visited: seq<nat>, i: nat, j: nat)
    requires forall x :: 0 <= x < |visited| ==> visited[x] < |dist|
    requires Ordered(dist, visited) && i <= j < |visited|
    ensures dist[visited[i]] <= dist[visited[j]]
    decreases j - i
  {
    if i < j {
      OrderedChain(dist, visited, i, j - 1);
    }
  }

  /** At the end every node reachable within the cap is settled, the others keep the cap and no
      predecessor. */
  lemma FinishReach(g: Graph, s: nat, r: Run, m: nat)
    requires Inv(g, s, r, m) && |r.pq| == 0
    ensures s in r.visitedNodes
    ensures forall v :: 0 <= v < |g.adj| ==> (v in r.visitedNodes <==> ReachableBelow(g, s, v, U32_MAX))
    ensures forall v :: 0 <= v < |g.adj| && v !in r.visitedNodes ==> r.dist[v] == U32_MAX && r.prev[v] == None
  {
    assert s in r.visitedNodes;
    forall v | 0 <= v < |g.adj| ensures v in r.visitedNodes <==> ReachableBelow(g, s, v, U32_MAX) {
      if v in r.visitedNodes {
        var i :| 0 <= i < |r.visitedNodes| && r.visitedNodes[i] == v;
        assert WalkOf(g, s, v, r.dist[v]);
      } else if ReachableBelow(g, s, v, U32_MAX) {
        var p :| IsWalk(g, s, p, v) && WalkWeight(p) < U32_MAX;
        ExitBound(g, s, r, U32_MAX, p, v);
      }
    }
  }

  /** Settled nodes carry their shortest distances, in settlement order. */
  lemma FinishShortest(g: Graph, s: nat, r: Run, m: nat)
    requires Inv(g, s, r, m)
    ensures forall v :: v in r.visitedNodes ==> v < |r.dist| && Shortest(g, s, v, r.dist[v])
    ensures forall i, j :: 0 <= i < j < |r.visitedNodes| ==> r.dist[r.visitedNodes[i]] <= r.dist[r.visitedNodes[j]]
  {
    forall v | v in r.visitedNodes ensures v < |r.dist| && Shortest(g, s, v, r.dist[v]) {
      var i :| 0 <= i < |r.visitedNodes| && r.visitedNodes[i] == v;
      assert WalkOf(g, s, v, r.dist[v]);
    }
    forall i, j | 0 <= i < j < |r.visitedNodes| ensures r.dist[r.visitedNodes[i]] <= r.dist[r.visitedNodes[j]] {
      OrderedChain(r.dist, r.visitedNodes, i, j);
    }
  }

  /** What the engine promises for a start node `s`: the trace shape, and the shortest-path
      results in `dist` and `prev`. */
  ghost predicate Outcome(g: Graph, s: nat, steps: seq<Step>, dist: seq<nat>, prev: seq<Option<nat>>)
    requires Valid(g) && s < |g.adj|
  {
    && |steps| >= 2
    && steps[0] == InitialStep(g, s)
    && var last := steps[|steps| - 1];
    && last.currentNode == None && last.candidateEdges == []
    && last.edgesInPath == PathEdges(prev)
    && |steps| == |last.visitedNodes| + 2
    && (forall k :: 0 < k < |steps| - 1 ==>
          && SettleStep(g, steps[k], last.visitedNodes)
          && steps[k].currentNode == Some(last.visitedNodes[k - 1])
          && steps[k].visitedNodes == last.visitedNodes[..k])
    && |dist| == |g.adj| && |prev| == |g.adj|
    && dist[s] == 0 && prev[s] == None
    && s in last.visitedNodes
    && (forall i, j :: 0 <= i < j < |last.visitedNodes| ==> last.visitedNodes[i] != last.visitedNodes[j])
    && (forall v :: 0 <= v < |g.adj| ==> (v in last.visitedNodes <==> ReachableBelow(g, s, v, U32_MAX)))
    && (forall v :: v in last.visitedNodes ==> v < |g.adj| && Shortest(g, s, v, dist[v]))
    && (forall i, j :: 0 <= i < j < |last.visitedNodes| ==>
          last.visitedNodes[i] < |g.adj| && last.visitedNodes[j] < |g.adj|
          && dist[last.visitedNodes[i]] <= dist[last.visitedNodes[j]])
    && (forall v :: 0 <= v < |g.adj| && v !in last.visitedNodes ==> dist[v] == U32_MAX && prev[v] == None)
    && (forall v :: v in last.visitedNodes && v != s ==> v < |prev| && prev[v].Some?)
    && (forall v :: 0 <= v < |g.adj| && prev[v].Some? ==> prev[v].value < |g.adj| && Via(g, dist, prev[v].value, v))
  }

  /** Every settled node other than the start has a predecessor: its distance is finite. */
  lemma FinishPreds(g: Graph, s: nat, r: Run, m: nat)
    requires Inv(g, s, r, m)
    ensures forall v :: v in r.visitedNodes && v != s ==> v < |r.prev| && r.prev[v].Some?
  {
    forall v | v in r.visitedNodes && v != s
      ensures v < |r.prev| && r.prev[v].Some?
    {
      var i :| 0 <= i < |r.visitedNodes| && r.visitedNodes[i] == v;
      assert r.dist[v] < U32_MAX;
    }
  }

  lemma FinishKeeps(g: Graph, s: nat, r: Run, m: nat)
    requires Inv(g, s, r, m) && |r.pq| == 0
    ensures Outcome(g, s, Close(r), r.dist, r.prev)
  {
    FinishReach(g, s, r, m);
    FinishShortest(g, s, r, m);
    FinishPreds(g, s, r, m);
  }

  /** The main loop from a known start node. */
  method Search(g: Graph, s: nat) returns (steps: seq<Step>, dist: seq<nat>, prev: seq<Option<nat>>)
    requires Valid(g) && s < |g.adj|
    ensures Outcome(g, s, steps, dist, prev)
  {
    var r := Init(g, s);
    ghost var m := 0;
    InitKeeps(g, s);
    while |r.pq| > 0
      invariant Inv(g, s, r, m)
      decreases Progress(r)
    {
      r, m := Iterate(g, s, r, m);
    }
    FinishKeeps(g, s, r, m);
    steps, dist, prev := Close(r), r.dist, r.prev;
  }

  /** `dijkstra`: an unknown start yields an empty trace; otherwise the search from it. The
      distances and predecessors, local to the source function, are returned as well so that the
      contract can speak of them. */
  method Dijkstra(g: Graph, start: Option<nat>) returns (viz: Visualization, dist: seq<nat>, prev: seq<Option<nat>>)
    requires Valid(g)
    requires start.Some? ==> start.value < |g.adj|
    ensures start.None? ==> viz.steps == [] && dist == [] && prev == []
    ensures start.Some? ==> Outcome(g, start.value, viz.steps, dist, prev)
  {
    if start.None? {
      return Visualization([]), [], [];
    }
    var steps;
    steps, dist, prev := Search(g, start.value);
    viz := Visualization(steps);
  }
}
