/** Walks through the adjacency lists, their weights, and reachability: the vocabulary in which
    the engines' correctness results are stated. */
module Walks {

  import opened Graphs

  /** One step of a walk: leave `from` along its adjacency entry `edge`. */
  datatype Hop = Hop(from: nat, edge: Edge)

  /** `p` leads from `s` to `t`, each hop following an entry of the hop's own node. */
  ghost predicate IsWalk(g: Graph, s: nat, p: seq<Hop>, t: nat)
    decreases |p|
  {
    if |p| == 0 then s == t
    else
      var h := p[|p| - 1];
      && h.from < |g.adj| && h.edge in g.adj[h.from] && h.edge.to == t
      && IsWalk(g, s, p[..|p| - 1], h.from)
  }

  /** Sum of the weights of the hops. */
  function WalkWeight(p: seq<Hop>): nat {
    if |p| == 0 then 0 else WalkWeight(p[..|p| - 1]) + p[|p| - 1].edge.weight
  }

  ghost predicate Reachable(g: Graph, s: nat, t: nat) {
    exists p :: IsWalk(g, s, p, t)
  }

  /** A walk extended by one more entry is a walk, and its weight grows by that entry's. */
  lemma Extend(g: Graph, s: nat, p: seq<Hop>, t: nat, e: Edge)
    requires IsWalk(g, s, p, t) && t < |g.adj| && e in g.adj[t]
    ensures IsWalk(g, s, p + [Hop(t, e)], e.to)
    ensures WalkWeight(p + [Hop(t, e)]) == WalkWeight(p) + e.weight
  {
    var q := p + [Hop(t, e)];
    assert q[..|q| - 1] == p;
    assert q[|q| - 1] == Hop(t, e);
  }

  /** Reachability is closed under following one adjacency entry. */
  lemma ReachableStep(g: Graph, s: nat, u: nat, e: Edge)
    requires Reachable(g, s, u) && u < |g.adj| && e in g.adj[u]
    ensures Reachable(g, s, e.to)
  {
    var p :| IsWalk(g, s, p, u);
    Extend(g, s, p, u, e);
  }

  lemma ReachableAlong(g: Graph, s: nat, u: nat, v: nat)
    requires Reachable(g, s, u) && IsGraphEdge(g, u, v)
    ensures Reachable(g, s, v)
  {
    var e :| e in g.adj[u] && e.to == v;
    ReachableStep(g, s, u, e);
  }

  lemma ReachableRefl(g: Graph, s: nat)
    ensures Reachable(g, s, s)
  {
    assert IsWalk(g, s, [], s);
  }

  /** Node sets that hold `s` and every neighbour of each of their members. */
  ghost predicate ClosedFrom(g: Graph, s: nat, nodes: set<nat>) {
    && s in nodes
    && forall u, i :: u in nodes && 0 <= u < |g.adj| && 0 <= i < |g.adj[u]| ==> g.adj[u][i].to in nodes
  }

  /** Such a set contains the end of every walk from `s`. */
  lemma {:induction false} ClosedHoldsWalkEnds(g: Graph, s: nat, nodes: set<nat>, p: seq<Hop>, t: nat)
    requires ClosedFrom(g, s, nodes) && IsWalk(g, s, p, t)
    ensures t in nodes
    decreases |p|
  {
    if |p| > 0 {
      var h := p[|p| - 1];
      ClosedHoldsWalkEnds(g, s, nodes, p[..|p| - 1], h.from);
      var i :| 0 <= i < |g.adj[h.from]| && g.adj[h.from][i] == h.edge;
    }
  }

  /** ... and so every node reachable from `s`. */
  lemma ClosedHoldsReachable(g: Graph, s: nat, nodes: set<nat>, t: nat)
    requires ClosedFrom(g, s, nodes) && Reachable(g, s, t)
    ensures t in nodes
  {
    var p :| IsWalk(g, s, p, t);
    ClosedHoldsWalkEnds(g, s, nodes, p, t);
  }

  /** Some walk from `s` to `t` weighs exactly `d`. */
  ghost predicate WalkOf(g: Graph, s: nat, t: nat, d: nat) {
    exists p :: IsWalk(g, s, p, t) && WalkWeight(p) == d
  }

  /** No walk from `s` to `t` weighs less than `d`. */
  ghost predicate AtLeast(g: Graph, s: nat, t: nat, d: nat) {
    forall p :: IsWalk(g, s, p, t) ==> d <= WalkWeight(p)
  }

  /** `d` is the distance from `s` to `t`: attained by a walk and undercut by none. */
  ghost predicate Shortest(g: Graph, s: nat, t: nat, d: nat) {
    WalkOf(g, s, t, d) && AtLeast(g, s, t, d)
  }

  /** Some walk from `s` to `t` weighs less than `bound`. */
  ghost predicate ReachableBelow(g: Graph, s: nat, t: nat, bound: nat) {
    exists p :: IsWalk(g, s, p, t) && WalkWeight(p) < bound
  }

  /** A walk of weight `d` to `u` and one more entry give a walk of weight `d + e.weight`. */
  lemma WalkOfStep(g: Graph, s: nat, u: nat, d: nat, e: Edge)
    requires WalkOf(g, s, u, d) && u < |g.adj| && e in g.adj[u]
    ensures WalkOf(g, s, e.to, d + e.weight)
  {
    var p :| IsWalk(g, s, p, u) && WalkWeight(p) == d;
    Extend(g, s, p, u, e);
  }

  /** The empty walk. */
  lemma WalkOfStart(g: Graph, s: nat)
    ensures WalkOf(g, s, s, 0)
  {
    assert IsWalk(g, s, [], s) && WalkWeight([]) == 0;
  }
}
