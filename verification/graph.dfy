/** The weighted undirected graph shared by all three engines, and the snapshot records the
    engines emit (`Graph`, `Edge`, `VisualizationStep`, `Visualization` in the source). */
module Graphs {

  import opened Options

  /** The largest `u32`. Edge weights are `u32` in the source, and the shortest-path engine
      uses this value as its "not reached yet" distance. */
  const U32_MAX: nat := 0xFFFF_FFFF

  type Weight = w: nat | w <= U32_MAX

  datatype Edge = Edge(to: nat, weight: Weight)

  /** Adjacency lists indexed by dense node numbers, plus the recorded node count. */
  datatype Graph = Graph(adj: seq<seq<Edge>>, nodeCount: nat)

  /** The node count agrees with the table and every entry names a node of the graph. */
  ghost predicate Valid(g: Graph) {
    && |g.adj| == g.nodeCount
    && forall u, i :: 0 <= u < |g.adj| && 0 <= i < |g.adj[u]| ==> g.adj[u][i].to < |g.adj|
  }

  /** Undirectedness: `u` lists `v` with weight `w` exactly as often as `v` lists `u` with `w`. */
  ghost predicate Symmetric(g: Graph) {
    forall u, v, w: Weight :: 0 <= u < |g.adj| && 0 <= v < |g.adj| ==>
      multiset(g.adj[u])[Edge(v, w)] == multiset(g.adj[v])[Edge(u, w)]
  }

  /** Some entry of `u`'s list leads to `v`. */
  ghost predicate IsGraphEdge(g: Graph, u: nat, v: nat) {
    u < |g.adj| && exists e :: e in g.adj[u] && e.to == v
  }

  /** Total number of adjacency entries. */
  function Size(g: Graph): nat {
    SumLengths(g.adj)
  }

  function SumLengths(lists: seq<seq<Edge>>): nat {
    if |lists| == 0 then 0 else SumLengths(lists[..|lists| - 1]) + |lists[|lists| - 1]|
  }

  /** `Graph::new`: `n` empty adjacency lists. */
  function New(n: nat): (g: Graph)
    ensures g.nodeCount == n && |g.adj| == n
    ensures forall u :: 0 <= u < n ==> g.adj[u] == []
    ensures Valid(g) && Symmetric(g) && Size(g) == 0
  {
    var g := Graph(seq(n, _ => []), n);
    EmptyListsHaveNoEntries(g.adj);
    g
  }

  lemma {:induction false} EmptyListsHaveNoEntries(lists: seq<seq<Edge>>)
    requires forall u :: 0 <= u < |lists| ==> lists[u] == []
    ensures SumLengths(lists) == 0
  {
    if |lists| > 0 {
      EmptyListsHaveNoEntries(lists[..|lists| - 1]);
    }
  }

  /** `Graph::add_edge`: the indexing panics unless both ends are in range. No deduplication:
      a repeated edge gives parallel entries, and a self-loop gives two entries in one list. */
  function AddEdge(g: Graph, u: nat, v: nat, w: Weight): (g': Graph)
    requires u < |g.adj| && v < |g.adj|
    ensures g'.nodeCount == g.nodeCount && |g'.adj| == |g.adj|
    ensures u != v ==> g'.adj[u] == g.adj[u] + [Edge(v, w)] && g'.adj[v] == g.adj[v] + [Edge(u, w)]
    ensures u == v ==> g'.adj[u] == g.adj[u] + [Edge(v, w), Edge(u, w)]
    ensures forall x :: 0 <= x < |g.adj| && x != u && x != v ==> g'.adj[x] == g.adj[x]
  {
    var first := g.adj[u := g.adj[u] + [Edge(v, w)]];
    Graph(first[v := first[v] + [Edge(u, w)]], g.nodeCount)
  }

  /** A valid graph stays valid when both ends of the new edge are nodes. */
  lemma AddEdgeKeepsValid(g: Graph, u: nat, v: nat, w: Weight)
    requires Valid(g) && u < |g.adj| && v < |g.adj|
    ensures Valid(AddEdge(g, u, v, w))
  {
    var g' := AddEdge(g, u, v, w);
    forall x, i | 0 <= x < |g'.adj| && 0 <= i < |g'.adj[x]|
      ensures g'.adj[x][i].to < |g'.adj|
    {
      if x == u || x == v {
        if i >= |g.adj[x]| {
          assert g'.adj[x][i] in [Edge(v, w), Edge(u, w)];
        }
      }
    }
  }

  /** Each insertion adds the entry and its mirror, so undirectedness is preserved. */
  lemma AddEdgeKeepsSymmetric(g: Graph, u: nat, v: nat, w: Weight)
    requires Symmetric(g) && u < |g.adj| && v < |g.adj|
    ensures Symmetric(AddEdge(g, u, v, w))
  {
    var g' := AddEdge(g, u, v, w);
    forall x, y, w': Weight | 0 <= x < |g'.adj| && 0 <= y < |g'.adj|
      ensures multiset(g'.adj[x])[Edge(y, w')] == multiset(g'.adj[y])[Edge(x, w')]
    {
      assert multiset(g.adj[x])[Edge(y, w')] == multiset(g.adj[y])[Edge(x, w')];
      CountAfterAddEdge(g, u, v, w, x, Edge(y, w'));
      CountAfterAddEdge(g, u, v, w, y, Edge(x, w'));
    }
  }

  /** How the number of copies of `e` in `x`'s list changes when `u -- v` is inserted. */
  lemma CountAfterAddEdge(g: Graph, u: nat, v: nat, w: Weight, x: nat, e: Edge)
    requires u < |g.adj| && v < |g.adj| && x < |g.adj|
    ensures multiset(AddEdge(g, u, v, w).adj[x])[e]
         == multiset(g.adj[x])[e]
            + (if x == u && e == Edge(v, w) then 1 else 0)
            + (if x == v && e == Edge(u, w) then 1 else 0)
  {
    var g' := AddEdge(g, u, v, w);
    if x == u && x == v {
      assert multiset(g'.adj[x]) == multiset(g.adj[x]) + multiset{Edge(v, w)} + multiset{Edge(u, w)};
    } else if x == u {
      assert multiset(g'.adj[x]) == multiset(g.adj[x]) + multiset{Edge(v, w)};
    } else if x == v {
      assert multiset(g'.adj[x]) == multiset(g.adj[x]) + multiset{Edge(u, w)};
    }
  }

  /** Each insertion adds exactly two adjacency entries. */
  lemma AddEdgeAddsTwoEntries(g: Graph, u: nat, v: nat, w: Weight)
    requires u < |g.adj| && v < |g.adj|
    ensures Size(AddEdge(g, u, v, w)) == Size(g) + 2
  {
    var first := g.adj[u := g.adj[u] + [Edge(v, w)]];
    SumLengthsUpdate(g.adj, u, g.adj[u] + [Edge(v, w)]);
    SumLengthsUpdate(first, v, first[v] + [Edge(u, w)]);
  }

  lemma {:induction false} SumLengthsUpdate(lists: seq<seq<Edge>>, i: nat, l: seq<Edge>)
    requires i < |lists|
    ensures SumLengths(lists[i := l]) == SumLengths(lists) - |lists[i]| + |l|
    decreases |lists|
  {
    var last := |lists| - 1;
    if i < last {
      assert lists[i := l][..last] == lists[..last][i := l];
      SumLengthsUpdate(lists[..last], i, l);
    } else {
      assert lists[i := l][..last] == lists[..last];
    }
  }

  /** A snapshot of an engine's state (`VisualizationStep`; the free-text explanation is not
      modelled). */
  datatype Step = Step(
    visitedNodes: seq<nat>,
    currentNode: Option<nat>,
    edgesInPath: seq<(nat, nat)>,
    candidateEdges: seq<(nat, nat)>)

  /** The trace returned by an engine. */
  datatype Visualization = Visualization(steps: seq<Step>)

  /** `(u, e.to)` for every entry `e` of `es`, in list order. */
  function AllCandidates(u: nat, es: seq<Edge>): (r: seq<(nat, nat)>)
    ensures |r| == |es|
    ensures forall i :: 0 <= i < |es| ==> r[i] == (u, es[i].to)
  {
    if |es| == 0 then [] else [(u, es[0].to)] + AllCandidates(u, es[1..])
  }

  /** The snapshot both traversal engines emit before their loop: the start is current, nothing
      is visited or committed, and every edge leaving the start is a candidate. */
  function InitialStep(g: Graph, s: nat): Step
    requires s < |g.adj|
  {
    Step([], Some(s), [], AllCandidates(s, g.adj[s]))
  }
}
