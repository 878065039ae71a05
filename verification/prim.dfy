/** `prim`: grows a minimum spanning tree from a root by always taking the cheapest frontier
    edge that reaches a new node. The source prints the result; here it is returned. */
module Prim {

  import opened Options
  import opened Graphs
  import opened Walks
  import opened Trees
  import opened Frontier
  import opened Spanning

  /** A frontier entry (`State` in the source): the edge from `from` to `to` of weight `weight`.
      The heap compares entries by weight alone. */
  datatype Arc = Arc(weight: Weight, from: nat, to: nat)

  function Key(x: Arc): nat {
    x.weight
  }

  /** The accepted edges, in acceptance order, and their total weight. */
  datatype Mst = Mst(edges: seq<TreeEdge>, totalWeight: nat)

  /** The initial frontier: one entry `(w, s, to)` per entry of `s`'s list. */
  function Seed(g: Graph, s: nat): (pq: multiset<Arc>)
    requires s < |g.adj|
  {
    multiset(seq(|g.adj[s]|, i requires 0 <= i < |g.adj[s]| => Arc(g.adj[s][i].weight, s, g.adj[s][i].to)))
  }

  /** The arcs of the entries from `lo` on, in list order. */
  function ArcsFrom(s: nat, es: seq<Edge>, lo: nat): seq<Arc>
    requires lo <= |es|
    decreases |es| - lo
  {
    if lo == |es| then [] else [Arc(es[lo].weight, s, es[lo].to)] + ArcsFrom(s, es, lo + 1)
  }

  lemma {:induction false} SeedArcs(s: nat, es: seq<Edge>, lo: nat)
    requires lo <= |es|
    ensures |ArcsFrom(s, es, lo)| == |es| - lo
    ensures forall i :: 0 <= i < |es| - lo ==> ArcsFrom(s, es, lo)[i] == Arc(es[lo + i].weight, s, es[lo + i].to)
    decreases |es| - lo
  {
    if lo < |es| {
      SeedArcs(s, es, lo + 1);
      var r, rest := ArcsFrom(s, es, lo), ArcsFrom(s, es, lo + 1);
      assert r == [Arc(es[lo].weight, s, es[lo].to)] + rest;
      forall i | 0 <= i < |es| - lo ensures r[i] == Arc(es[lo + i].weight, s, es[lo + i].to) {
        if i > 0 {
          assert r[i] == rest[i - 1];
        }
      }
    }
  }

  /** Every arc occurs among them as often as its edge occurs in the list from `lo` on:
      parallel edges give as many frontier entries. */
  lemma {:induction false} ArcsFromCount(s: nat, es: seq<Edge>, lo: nat, x: Arc)
    requires lo <= |es|
    ensures multiset(ArcsFrom(s, es, lo))[x] == if x.from == s then multiset(es[lo..])[Edge(x.to, x.weight)] else 0
    decreases |es| - lo
  {
    if lo < |es| {
      ArcsFromCount(s, es, lo + 1, x);
      assert es[lo..] == [es[lo]] + es[lo + 1..];
    }
  }

  /** The seed holds exactly one entry per adjacency entry of `s`, each leaving `s`. */
  lemma SeedSpec(g: Graph, s: nat)
    requires s < |g.adj|
    ensures |Seed(g, s)| == |g.adj[s]|
    ensures forall x :: Seed(g, s)[x] == if x.from == s then multiset(g.adj[s])[Edge(x.to, x.weight)] else 0
    ensures forall x :: x in Seed(g, s) <==> x.from == s && Edge(x.to, x.weight) in g.adj[s]
  {
    var es := seq(|g.adj[s]|, i requires 0 <= i < |g.adj[s]| => Arc(g.adj[s][i].weight, s, g.adj[s][i].to));
    SeedArcs(s, g.adj[s], 0);
    assert ArcsFrom(s, g.adj[s], 0) == es;
    assert g.adj[s][0..] == g.adj[s];
    forall x: Arc ensures Seed(g, s)[x] == if x.from == s then multiset(g.adj[s])[Edge(x.to, x.weight)] else 0 {
      ArcsFromCount(s, g.adj[s], 0, x);
    }
    forall x: Arc | x.from == s && Edge(x.to, x.weight) in g.adj[s] ensures x in Seed(g, s) {
      var i :| 0 <= i < |g.adj[s]| && g.adj[s][i] == Edge(x.to, x.weight);
      assert es[i] == x;
    }
  }

  /** `visited` marks exactly the nodes of the tree accepted so far, whose edges are graph
      edges attached in order below `s`. */
  ghost predicate Grown(g: Graph, s: nat, visited: seq<bool>, mst: seq<TreeEdge>) {
    && |visited| == |g.adj| && s < |g.adj|
    && IsTreeFrom(s, Pairs(mst))
    && (forall k :: 0 <= k < |mst| ==> mst[k].1 < |g.adj| && IsArc(g, mst[k]))
    && (forall y :: 0 <= y < |visited| ==> (visited[y] <==> y in TreeNodes(s, Pairs(mst))))
  }

  /** Every frontier entry is a real edge leaving a visited node. */
  ghost predicate Sound(g: Graph, visited: seq<bool>, pq: multiset<Arc>) {
    forall x :: x in pq ==>
      x.from < |g.adj| && x.to < |g.adj| && x.from < |visited| && visited[x.from]
      && Edge(x.to, x.weight) in g.adj[x.from]
  }

  /** Every edge from a visited node to an unvisited one is on the frontier. */
  ghost predicate Queued(g: Graph, visited: seq<bool>, pq: multiset<Arc>)
    requires Valid(g) && |visited| == |g.adj|
  {
    forall a, i :: 0 <= a < |g.adj| && visited[a] && 0 <= i < |g.adj[a]| && !visited[g.adj[a][i].to] ==>
      Arc(g.adj[a][i].weight, a, g.adj[a][i].to) in pq
  }

  /** `Queued`, except that of `u`'s entries only the first `k` are covered yet. */
  ghost predicate QueuedExcept(g: Graph, visited: seq<bool>, pq: multiset<Arc>, u: nat, k: nat)
    requires Valid(g) && |visited| == |g.adj|
  {
    forall a, i ::
      (0 <= a < |g.adj| && visited[a] && 0 <= i < |g.adj[a]| && (a == u ==> i < k) && !visited[g.adj[a][i].to]) ==>
      Arc(g.adj[a][i].weight, a, g.adj[a][i].to) in pq
  }

  /** `t` is a spanning tree no heavier than `p` that holds every accepted edge. */
  ghost predicate Witness(g: Graph, s: nat, mst: seq<TreeEdge>, p: RootedTree, t: RootedTree) {
    IsSpanningTree(g, s, t) && Extends(t, mst) && TreeWeight(t) <= TreeWeight(p)
  }

  /** Some spanning tree holding every accepted edge is no heavier than `p`. */
  ghost predicate Beaten(g: Graph, s: nat, mst: seq<TreeEdge>, p: RootedTree) {
    exists t :: Witness(g, s, mst, p, t)
  }

  /** Whatever spanning tree one compares against, some spanning tree no heavier than it
      contains every accepted edge. */
  ghost predicate Promising(g: Graph, s: nat, mst: seq<TreeEdge>) {
    forall p :: IsSpanningTree(g, s, p) ==> Beaten(g, s, mst, p)
  }

  /** The last accepted edge hangs its child below the tree of the earlier ones. */
  lemma TreeLast(s: nat, mst: seq<TreeEdge>)
    requires IsTreeFrom(s, Pairs(mst)) && |mst| > 0
    ensures var prefix, a := mst[..|mst| - 1], mst[|mst| - 1];
      && IsTreeFrom(s, Pairs(prefix)) && a.0 in TreeNodes(s, Pairs(prefix))
      && TreeNodes(s, Pairs(mst)) == TreeNodes(s, Pairs(prefix)) + {a.1}
  {
    var prefix, a := mst[..|mst| - 1], mst[|mst| - 1];
    PairsPrefix(mst, |mst| - 1);
    assert Pairs(mst)[|mst| - 1] == (a.0, a.1);
    assert Pairs(mst) == Pairs(prefix) + [(a.0, a.1)];
    Attach(s, Pairs(prefix), (a.0, a.1));
  }

  /** The tree nodes are nodes of the graph and each is reachable from the root. */
  lemma {:induction false} TreeReachable(g: Graph, s: nat, mst: seq<TreeEdge>)
    requires s < |g.adj| && IsTreeFrom(s, Pairs(mst))
    requires forall k :: 0 <= k < |mst| ==> mst[k].1 < |g.adj| && IsArc(g, mst[k])
    ensures forall y :: y in TreeNodes(s, Pairs(mst)) ==> y < |g.adj| && Reachable(g, s, y)
    decreases |mst|
  {
    if |mst| == 0 {
      ReachableRefl(g, s);
    } else {
      var prefix, a := mst[..|mst| - 1], mst[|mst| - 1];
      TreeLast(s, mst);
      TreeReachable(g, s, prefix);
      var before := TreeNodes(s, Pairs(prefix));
      assert IsArc(g, a);
      ReachableStep(g, s, a.0, Edge(a.1, a.2));
      forall y | y in before + {a.1} ensures y < |g.adj| && Reachable(g, s, y) {
        if y != a.1 {
          assert y in before;
        }
      }
    }
  }

  /** The start state: only `s` visited, no edge accepted, the frontier seeded from `s`. */
  lemma InitKeeps(g: Graph, s: nat)
    requires Valid(g) && s < |g.adj|
    ensures var visited := seq(|g.adj|, y => y == s);
      && Grown(g, s, visited, []) && Sound(g, visited, Seed(g, s)) && Queued(g, visited, Seed(g, s))
      && Promising(g, s, [])
  {
    var visited := seq(|g.adj|, y => y == s);
    SeedSpec(g, s);
    assert Pairs([]) == [];
    forall a, i | 0 <= a < |g.adj| && visited[a] && 0 <= i < |g.adj[a]| && !visited[g.adj[a][i].to]
      ensures Arc(g.adj[a][i].weight, a, g.adj[a][i].to) in Seed(g, s)
    {
      assert g.adj[a][i] in g.adj[s];
    }
    forall p | IsSpanningTree(g, s, p) ensures Beaten(g, s, [], p) {
      assert Witness(g, s, [], p, p);
    }
  }

  /** Dropping an entry whose target is already visited loses nothing the frontier must hold. */
  lemma DiscardKeeps(g: Graph, visited: seq<bool>, pq: multiset<Arc>, x: Arc)
    requires Valid(g) && |visited| == |g.adj| && x in pq && x.to < |g.adj| && visited[x.to]
    requires Sound(g, visited, pq) && Queued(g, visited, pq)
    ensures Sound(g, visited, pq - multiset{x}) && Queued(g, visited, pq - multiset{x})
  {
  }

  /** A tree of graph edges below `s` has fewer edges than the graph has nodes. */
  lemma TreeBound(g: Graph, s: nat, mst: seq<TreeEdge>)
    requires s < |g.adj| && IsTreeFrom(s, Pairs(mst))
    requires forall k :: 0 <= k < |mst| ==> mst[k].1 < |g.adj| && IsArc(g, mst[k])
    ensures |mst| + 1 <= |g.adj|
  {
    var nodes := TreeNodes(s, Pairs(mst));
    TreeReachable(g, s, mst);
    TreeSize(s, Pairs(mst));
    BelowSize(nodes, |g.adj|);
  }

  /** Accepting an edge from a visited node to an unvisited one attaches its target to the tree. */
  lemma AcceptGrown(g: Graph, s: nat, visited: seq<bool>, mst: seq<TreeEdge>, x: Arc)
    requires Valid(g) && Grown(g, s, visited, mst)
    requires x.from < |g.adj| && x.to < |g.adj| && visited[x.from] && !visited[x.to]
    requires Edge(x.to, x.weight) in g.adj[x.from]
    ensures Grown(g, s, visited[x.to := true], mst + [(x.from, x.to, x.weight)])
    ensures |mst| + 1 <= |g.adj| - 1
  {
    var a: TreeEdge := (x.from, x.to, x.weight);
    var mst' := mst + [a];
    PairsPrefix(mst', |mst|);
    assert mst'[..|mst|] == mst;
    assert Pairs(mst')[|mst|] == (a.0, a.1);
    Attach(s, Pairs(mst), (a.0, a.1));
    assert Pairs(mst') == Pairs(mst) + [(a.0, a.1)];
    var visited' := visited[x.to := true];
    forall y | 0 <= y < |visited'| ensures visited'[y] <==> y in TreeNodes(s, Pairs(mst')) {
      if y != x.to {
        assert visited'[y] == visited[y];
      }
    }
    forall k | 0 <= k < |mst'| ensures mst'[k].1 < |g.adj| && IsArc(g, mst'[k]) {
      if k < |mst| {
        assert mst'[k] == mst[k];
      }
    }
    TreeBound(g, s, mst');
  }

  /** Accepting keeps the frontier sound, and covered except for the new node's own list. */
  lemma AcceptQueue(g: Graph, visited: seq<bool>, pq: multiset<Arc>, x: Arc)
    requires Valid(g) && |visited| == |g.adj| && x in pq && x.to < |g.adj| && !visited[x.to]
    requires Sound(g, visited, pq) && Queued(g, visited, pq)
    ensures Sound(g, visited[x.to := true], pq - multiset{x})
    ensures QueuedExcept(g, visited[x.to := true], pq - multiset{x}, x.to, 0)
  {
  }

  /** The cheapest entry on a covering frontier is a cheapest edge leaving the tree. */
  lemma FrontierCheapest(g: Graph, s: nat, visited: seq<bool>, mst: seq<TreeEdge>, pq: multiset<Arc>, x: Arc)
    requires Valid(g) && Grown(g, s, visited, mst) && Queued(g, visited, pq) && IsMin(pq, Key, x)
    ensures Cheapest(g, TreeNodes(s, Pairs(mst)), x.weight)
  {
    var inside := TreeNodes(s, Pairs(mst));
    forall a, i | 0 <= a < |g.adj| && a in inside && 0 <= i < |g.adj[a]| && g.adj[a][i].to !in inside
      ensures x.weight <= g.adj[a][i].weight
    {
      assert visited[a] && !visited[g.adj[a][i].to];
      assert Key(Arc(g.adj[a][i].weight, a, g.adj[a][i].to)) == g.adj[a][i].weight;
    }
  }

  /** One exchange: a spanning tree no heavier than `p` that holds the accepted edges yields one
      that also holds a cheapest edge leaving the tree. */
  lemma ExchangeBelow(g: Graph, s: nat, mst: seq<TreeEdge>, u: nat, v: nat, w: Weight, t: RootedTree, p: RootedTree)
    requires Symmetric(g) && IsTreeFrom(s, Pairs(mst))
    requires u < |g.adj| && u in TreeNodes(s, Pairs(mst))
    requires v < |g.adj| && v !in TreeNodes(s, Pairs(mst)) && Edge(v, w) in g.adj[u]
    requires Cheapest(g, TreeNodes(s, Pairs(mst)), w)
    requires Witness(g, s, mst, p, t)
    ensures Beaten(g, s, mst + [(u, v, w)], p)
  {
    var t' := Exchange(g, s, t, mst, u, v, w);
    assert Witness(g, s, mst + [(u, v, w)], p, t');
  }

  /** Adding a cheapest edge that leaves the tree keeps the accepted edges extendable to a tree
      no heavier than any given one. */
  lemma PromisingStep(g: Graph, s: nat, mst: seq<TreeEdge>, u: nat, v: nat, w: Weight)
    requires Symmetric(g) && IsTreeFrom(s, Pairs(mst))
    requires u < |g.adj| && u in TreeNodes(s, Pairs(mst))
    requires v < |g.adj| && v !in TreeNodes(s, Pairs(mst)) && Edge(v, w) in g.adj[u]
    requires Cheapest(g, TreeNodes(s, Pairs(mst)), w)
    requires Promising(g, s, mst)
    ensures Promising(g, s, mst + [(u, v, w)])
  {
    forall p | IsSpanningTree(g, s, p) ensures Beaten(g, s, mst + [(u, v, w)], p) {
      assert Beaten(g, s, mst, p);
      var t :| Witness(g, s, mst, p, t);
      ExchangeBelow(g, s, mst, u, v, w, t, p);
    }
  }

  /** One step of the scan: pushing the `k`-th entry of `v` when its target is unvisited (and
      skipping it otherwise) covers the first `k + 1` entries. */
  lemma PushStep(g: Graph, visited: seq<bool>, pq: multiset<Arc>, v: nat, k: nat)
    requires Valid(g) && |visited| == |g.adj| && v < |g.adj| && visited[v] && k < |g.adj[v]|
    requires Sound(g, visited, pq) && QueuedExcept(g, visited, pq, v, k)
    ensures var e := g.adj[v][k];
      var pq' := if visited[e.to] then pq else pq + multiset{Arc(e.weight, v, e.to)};
      Sound(g, visited, pq') && QueuedExcept(g, visited, pq', v, k + 1)
  {
    var e := g.adj[v][k];
    assert e in g.adj[v];
  }

  /** How many copies of `x` the scan of the first `k` entries of `v`'s list pushes: one per
      entry matching `x`'s target and weight, when `x` leaves `v` for an unvisited node. */
  function Pushed(g: Graph, visited: seq<bool>, v: nat, k: nat, x: Arc): nat
    requires |visited| == |g.adj| && v < |g.adj| && k <= |g.adj[v]|
  {
    if x.from == v && x.to < |visited| && !visited[x.to] then multiset(g.adj[v][..k])[Edge(x.to, x.weight)] else 0
  }

  /** Scanning entry `k` adds one copy of the arc it describes, when that arc is pushed, so the
      count of each arc keeps matching the scanned prefix. */
  lemma PushedStep(g: Graph, visited: seq<bool>, pq: multiset<Arc>, cur: multiset<Arc>, v: nat, k: nat)
    requires Valid(g) && |visited| == |g.adj| && v < |g.adj| && k < |g.adj[v]|
    requires forall x: Arc :: cur[x] == pq[x] + Pushed(g, visited, v, k, x)
    ensures var e := g.adj[v][k];
      var cur' := if visited[e.to] then cur else cur + multiset{Arc(e.weight, v, e.to)};
      forall x: Arc :: cur'[x] == pq[x] + Pushed(g, visited, v, k + 1, x)
  {
    assert g.adj[v][..k + 1] == g.adj[v][..k] + [g.adj[v][k]];
  }

  /** After the whole list is scanned, the queue grew by exactly the arcs to unvisited nodes. */
  lemma PushedAll(g: Graph, visited: seq<bool>, pq: multiset<Arc>, cur: multiset<Arc>, v: nat)
    requires |visited| == |g.adj| && v < |g.adj|
    requires forall x: Arc :: cur[x] == pq[x] + Pushed(g, visited, v, |g.adj[v]|, x)
    ensures pq <= cur && forall x :: x in cur - pq ==> x.from == v && x.to < |visited| && !visited[x.to]
    ensures forall x: Arc :: cur[x] == pq[x] + (if x.from == v && x.to < |visited| && !visited[x.to]
      then multiset(g.adj[v])[Edge(x.to, x.weight)] else 0)
  {
    assert g.adj[v][..|g.adj[v]|] == g.adj[v];
  }

  /** The scan of the new node's list (`for edge in &graph.adj[to]`): every entry leading to an
      unvisited node is pushed, and nothing else. */
  method PushNeighbours(g: Graph, visited: seq<bool>, pq: multiset<Arc>, v: nat) returns (pq': multiset<Arc>)
    requires Valid(g) && |visited| == |g.adj| && v < |g.adj| && visited[v]
    requires Sound(g, visited, pq) && QueuedExcept(g, visited, pq, v, 0)
    ensures Sound(g, visited, pq') && Queued(g, visited, pq')
    ensures pq <= pq' && forall x :: x in pq' - pq ==> x.from == v && !visited[x.to]
    ensures forall x: Arc :: pq'[x] == pq[x] + (if x.from == v && x.to < |visited| && !visited[x.to]
      then multiset(g.adj[v])[Edge(x.to, x.weight)] else 0)
  {
    pq' := pq;
    var k := 0;
    while k < |g.adj[v]|
      invariant k <= |g.adj[v]|
      invariant Sound(g, visited, pq') && QueuedExcept(g, visited, pq', v, k)
      invariant forall x: Arc :: pq'[x] == pq[x] + Pushed(g, visited, v, k, x)
    {
      var e := g.adj[v][k];
      PushStep(g, visited, pq', v, k);
      PushedStep(g, visited, pq, pq', v, k);
      if !visited[e.to] {
        pq' := pq' + multiset{Arc(e.weight, v, e.to)};
      }
      k := k + 1;
    }
    PushedAll(g, visited, pq, pq', v);
  }

  /** The loop invariant: the grown tree, a sound and covering frontier, the running total, the
      size bound, and (on symmetric graphs) extendability to a lightest spanning tree. */
  ghost predicate Kept(g: Graph, s: nat, visited: seq<bool>, mst: seq<TreeEdge>, total: nat, pq: multiset<Arc>) {
    && Valid(g) && Grown(g, s, visited, mst)
    && Sound(g, visited, pq) && Queued(g, visited, pq)
    && total == Weights(mst) && |mst| + 1 <= |g.adj|
    && (Symmetric(g) ==> Promising(g, s, mst))
  }

  /** Accepting the cheapest entry, when its target is new, keeps everything except the coverage
      of the new node's own list, which the scan that follows restores. */
  lemma AcceptKeeps(g: Graph, s: nat, visited: seq<bool>, mst: seq<TreeEdge>, total: nat, pq: multiset<Arc>, x: Arc)
    requires Kept(g, s, visited, mst, total, pq) && IsMin(pq, Key, x) && !visited[x.to]
    ensures var visited', mst' := visited[x.to := true], mst + [(x.from, x.to, x.weight)];
      && Grown(g, s, visited', mst') && |mst'| + 1 <= |g.adj|
      && Sound(g, visited', pq - multiset{x}) && QueuedExcept(g, visited', pq - multiset{x}, x.to, 0)
      && total + x.weight == Weights(mst')
      && (Symmetric(g) ==> Promising(g, s, mst'))
  {
    var mst' := mst + [(x.from, x.to, x.weight)];
    AcceptGrown(g, s, visited, mst, x);
    AcceptQueue(g, visited, pq, x);
    assert mst'[..|mst|] == mst;
    if Symmetric(g) {
      FrontierCheapest(g, s, visited, mst, pq, x);
      assert x.from in TreeNodes(s, Pairs(mst)) && x.to !in TreeNodes(s, Pairs(mst));
      PromisingStep(g, s, mst, x.from, x.to, x.weight);
    }
  }

  /** A tree with `n - 1` edges below `s` holds every node. */
  lemma FinishFull(g: Graph, s: nat, visited: seq<bool>, mst: seq<TreeEdge>)
    requires Grown(g, s, visited, mst) && |mst| == |g.adj| - 1
    ensures forall y :: 0 <= y < |g.adj| ==> y in TreeNodes(s, Pairs(mst))
  {
    var nodes := TreeNodes(s, Pairs(mst));
    TreeReachable(g, s, mst);
    TreeSize(s, Pairs(mst));
    FullRange(nodes, |g.adj|);
  }

  /** An empty covering frontier leaves no edge out of the tree, so the tree holds every node
      reachable from `s`. */
  lemma FinishEmpty(g: Graph, s: nat, visited: seq<bool>, mst: seq<TreeEdge>)
    requires Valid(g) && Grown(g, s, visited, mst) && Queued(g, visited, multiset{})
    ensures forall y :: 0 <= y < |g.adj| && Reachable(g, s, y) ==> y in TreeNodes(s, Pairs(mst))
  {
    var nodes := TreeNodes(s, Pairs(mst));
    forall u, i | u in nodes && 0 <= u < |g.adj| && 0 <= i < |g.adj[u]| ensures g.adj[u][i].to in nodes {
      assert visited[u];
      assert visited[g.adj[u][i].to];
    }
    assert ClosedFrom(g, s, nodes);
    forall y | 0 <= y < |g.adj| && Reachable(g, s, y) ensures y in nodes {
      ClosedHoldsReachable(g, s, nodes, y);
    }
  }

  /** What `prim` computes from a start node `s`: its edges form a tree of graph edges hung below
      `s` in acceptance order, holding exactly the nodes reachable from `s`; the total is their
      weight sum; when every node is reachable they form a spanning tree, and on a symmetric
      graph no spanning tree is lighter. */
  ghost predicate Outcome(g: Graph, s: nat, r: Mst)
    requires Valid(g) && s < |g.adj|
  {
    && IsTreeFrom(s, Pairs(r.edges))
    && (forall k :: 0 <= k < |r.edges| ==> r.edges[k].1 < |g.adj| && IsArc(g, r.edges[k]))
    && r.totalWeight == Weights(r.edges)
    && |r.edges| + 1 <= |g.adj|
    && (forall y :: 0 <= y < |g.adj| ==> (y in TreeNodes(s, Pairs(r.edges)) <==> Reachable(g, s, y)))
    && ((forall y :: 0 <= y < |g.adj| ==> Reachable(g, s, y)) ==>
          && IsSpanningTree(g, s, Attached(s, r.edges, |g.adj|))
          && TreeWeight(Attached(s, r.edges, |g.adj|)) == r.totalWeight)
    && (Symmetric(g) ==> forall p :: IsSpanningTree(g, s, p) ==> r.totalWeight <= TreeWeight(p))
  }

  /** A spanning tree reaches every node, so once the tree holds every reachable node it holds
      all of them, and the extension promised for any rival is the tree itself. */
  lemma FinishOptimal(g: Graph, s: nat, mst: seq<TreeEdge>, p: RootedTree)
    requires IsTreeFrom(s, Pairs(mst)) && (forall k :: 0 <= k < |mst| ==> mst[k].1 < |g.adj|)
    requires forall y :: 0 <= y < |g.adj| && Reachable(g, s, y) ==> y in TreeNodes(s, Pairs(mst))
    requires Promising(g, s, mst) && IsSpanningTree(g, s, p)
    ensures Weights(mst) <= TreeWeight(p)
  {
    forall y | 0 <= y < |g.adj| ensures y in TreeNodes(s, Pairs(mst)) {
      SpanningReaches(g, s, p, y);
    }
    assert Beaten(g, s, mst, p);
    var t :| Witness(g, s, mst, p, t);
    FullExtension(g, s, t, mst);
  }

  /** The loop's exit state, with every reachable node in the tree, meets the outcome. */
  lemma FinishKeeps(g: Graph, s: nat, visited: seq<bool>, mst: seq<TreeEdge>, total: nat)
    requires Valid(g) && Grown(g, s, visited, mst) && total == Weights(mst) && |mst| + 1 <= |g.adj|
    requires Symmetric(g) ==> Promising(g, s, mst)
    requires forall y :: 0 <= y < |g.adj| && Reachable(g, s, y) ==> y in TreeNodes(s, Pairs(mst))
    ensures Outcome(g, s, Mst(mst, total))
  {
    TreeReachable(g, s, mst);
    if forall y :: 0 <= y < |g.adj| ==> Reachable(g, s, y) {
      AttachedSpans(g, s, mst);
    }
    if Symmetric(g) {
      forall p | IsSpanningTree(g, s, p) ensures total <= TreeWeight(p) {
        FinishOptimal(g, s, mst, p);
      }
    }
  }

  /** One pop of the frontier: an entry of least weight is removed; if its target is visited it
      is dropped (`continue`); otherwise the edge is accepted and, unless that makes `n - 1` edges
      (`break`, reported as `full`), the new node's edges to unvisited nodes are pushed. */
  method Visit(g: Graph, s: nat, visited: seq<bool>, mst: seq<TreeEdge>, total: nat, pq: multiset<Arc>)
    returns (visited': seq<bool>, mst': seq<TreeEdge>, total': nat, pq': multiset<Arc>, full: bool)
    requires Kept(g, s, visited, mst, total, pq) && pq != multiset{}
    ensures Grown(g, s, visited', mst') && total' == Weights(mst') && |mst'| + 1 <= |g.adj|
    ensures Symmetric(g) ==> Promising(g, s, mst')
    ensures full ==> |mst'| == |g.adj| - 1
    ensures |mst'| == |mst| + 1 && |mst'| == |g.adj| - 1 ==> full
    ensures !full ==> Kept(g, s, visited', mst', total', pq')
    ensures full ==> |mst'| == |mst| + 1 && mst'[..|mst|] == mst
    ensures !full ==>
      || (visited' == visited && mst' == mst && total' == total && |pq'| < |pq|)
      || (|mst'| == |mst| + 1 && mst'[..|mst|] == mst)
  {
    ghost var least := MinExists(pq, Key);
    var x :| x in pq && IsMin(pq, Key, x);
    if visited[x.to] {
      DiscardKeeps(g, visited, pq, x);
      return visited, mst, total, pq - multiset{x}, false;
    }
    AcceptKeeps(g, s, visited, mst, total, pq, x);
    visited' := visited[x.to := true];
    mst' := mst + [(x.from, x.to, x.weight)];
    total' := total + x.weight;
    pq' := pq - multiset{x};
    full := |mst'| == |g.adj| - 1;
    if !full {
      pq' := PushNeighbours(g, visited', pq', x.to);
    }
  }

  /** The main loop from a known start node (`while let Some(State { weight, from, to }) =
      pq.pop()`), until the frontier runs dry or the tree is complete. */
  method Grow(g: Graph, s: nat) returns (r: Mst)
    requires Valid(g) && s < |g.adj|
    ensures Outcome(g, s, r)
  {
    var visited := seq(|g.adj|, y => y == s);
    var pq := Seed(g, s);
    var mst: seq<TreeEdge> := [];
    var total: nat := 0;
    InitKeeps(g, s);
    ghost var stopped := false;
    while pq != multiset{}
      invariant Kept(g, s, visited, mst, total, pq)
      decreases |g.adj| - |mst|, |pq|
    {
      var full;
      visited, mst, total, pq, full := Visit(g, s, visited, mst, total, pq);
      if full {
        stopped := true;
        break;
      }
    }
    if stopped {
      FinishFull(g, s, visited, mst);
    } else {
      FinishEmpty(g, s, visited, mst);
    }
    FinishKeeps(g, s, visited, mst, total);
    r := Mst(mst, total);
  }

  /** `prim`: an unknown root yields nothing (the source prints a message and returns); otherwise
      the tree grown from it. */
  method Prim(g: Graph, start: Option<nat>) returns (r: Option<Mst>)
    requires Valid(g)
    requires start.Some? ==> start.value < |g.adj|
    ensures start.None? <==> r.None?
    ensures start.Some? ==> r.Some? && Outcome(g, start.value, r.value)
  {
    if start.None? {
      return None;
    }
    var m := Grow(g, start.value);
    r := Some(m);
  }
}
