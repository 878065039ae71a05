/** Spanning trees and the exchange argument behind the greedy minimum-spanning-tree engine.

    A spanning tree of the whole graph, rooted at `s`, is given by parent pointers: every other
    node hangs below its parent by one of the parent's adjacency entries, and a rank that grows
    from parent to child rules out cycles. On an undirected graph every spanning tree in the
    usual sense can be presented this way, rooted anywhere (rank = depth). */
module Spanning {

  import opened Graphs
  import opened Walks
  import opened Sums
  import opened Trees

  datatype RootedTree = RootedTree(parent: seq<nat>, weight: seq<Weight>, rank: seq<nat>)

  /** The three tables cover the nodes `0 .. n-1`. */
  predicate Sized(t: RootedTree, n: nat) {
    |t.parent| == n && |t.weight| == n && |t.rank| == n
  }

  /** Node `y` hangs below its parent by an entry of the recorded weight, one rank lower. */
  ghost predicate Hangs(g: Graph, t: RootedTree, y: nat)
    requires Sized(t, |g.adj|) && y < |g.adj|
  {
    var p := t.parent[y];
    p < |g.adj| && Edge(y, t.weight[y]) in g.adj[p] && t.rank[p] < t.rank[y]
  }

  /** `t` spans the graph from `s`; the root carries no weight. */
  ghost predicate IsSpanningTree(g: Graph, s: nat, t: RootedTree) {
    && s < |g.adj| && Sized(t, |g.adj|) && t.weight[s] == 0
    && forall y :: 0 <= y < |g.adj| && y != s ==> Hangs(g, t, y)
  }

  /** The sum of the weights of the tree's edges. */
  function TreeWeight(t: RootedTree): nat {
    Sum(t.weight)
  }

  /** Tree edges as `(from, to, weight)` triples, the form the greedy engine accumulates. */
  type TreeEdge = (nat, nat, Weight)

  /** The `(from, to)` pairs of a list of tree edges. */
  function Pairs(arcs: seq<TreeEdge>): seq<(nat, nat)> {
    seq(|arcs|, k requires 0 <= k < |arcs| => (arcs[k].0, arcs[k].1))
  }

  /** Sum of the weights of a list of tree edges. */
  function Weights(arcs: seq<TreeEdge>): nat {
    if |arcs| == 0 then 0 else Weights(arcs[..|arcs| - 1]) + arcs[|arcs| - 1].2
  }

  /** The edge is one of `from`'s adjacency entries. */
  ghost predicate IsArc(g: Graph, a: TreeEdge) {
    a.0 < |g.adj| && Edge(a.1, a.2) in g.adj[a.0]
  }

  /** `t` contains every listed tree edge: each listed child hangs below the listed parent with
      the listed weight. */
  ghost predicate Extends(t: RootedTree, arcs: seq<TreeEdge>) {
    forall k :: 0 <= k < |arcs| ==>
      arcs[k].1 < |t.parent| && arcs[k].1 < |t.weight|
      && t.parent[arcs[k].1] == arcs[k].0 && t.weight[arcs[k].1] == arcs[k].2
  }

  lemma PairsPrefix(arcs: seq<TreeEdge>, m: nat)
    requires m <= |arcs|
    ensures Pairs(arcs)[..m] == Pairs(arcs[..m])
  {
  }

  /** Every node of a spanning tree is reachable from its root. */
  lemma {:induction false} SpanningReaches(g: Graph, s: nat, t: RootedTree, y: nat)
    requires IsSpanningTree(g, s, t) && y < |g.adj|
    ensures Reachable(g, s, y)
    decreases t.rank[y]
  {
    if y == s {
      ReachableRefl(g, s);
    } else {
      assert Hangs(g, t, y);
      var p := t.parent[y];
      SpanningReaches(g, s, t, p);
      ReachableStep(g, s, p, Edge(y, t.weight[y]));
    }
  }

  /** An undirected graph lists every entry in both directions. */
  lemma Mirror(g: Graph, a: nat, b: nat, w: Weight)
    requires Symmetric(g) && a < |g.adj| && b < |g.adj| && Edge(b, w) in g.adj[a]
    ensures Edge(a, w) in g.adj[b]
  {
    assert multiset(g.adj[a])[Edge(b, w)] == multiset(g.adj[b])[Edge(a, w)];
  }

  /** A strict upper bound of a sequence of naturals. */
  function Bound(r: seq<nat>): (b: nat)
    ensures forall i :: 0 <= i < |r| ==> r[i] < b
  {
    if |r| == 0 then 0
    else
      var b := Bound(r[..|r| - 1]);
      if r[|r| - 1] < b then b else r[|r| - 1] + 1
  }

  /** The position of `x` in `s`. */
  function IndexOf(s: seq<nat>, x: nat): (i: nat)
    requires x in s
    ensures i < |s| && s[i] == x
  {
    if s[0] == x then 0 else 1 + IndexOf(s[1..], x)
  }

  /** The way up from `y`, outside `inside`, to the last node whose parent is inside. */
  ghost function Climb(g: Graph, s: nat, t: RootedTree, inside: set<nat>, y: nat): seq<nat>
    requires IsSpanningTree(g, s, t) && s in inside && y < |g.adj| && y !in inside
    decreases t.rank[y]
  {
    assert Hangs(g, t, y);
    var p := t.parent[y];
    if p in inside then [y] else [y] + Climb(g, s, t, inside, p)
  }

  /** The climb starts at `y`, stays outside, follows parents, ends below an inside node, and
      visits no node twice (ranks fall strictly along it). */
  lemma {:induction false} ClimbFacts(g: Graph, s: nat, t: RootedTree, inside: set<nat>, y: nat)
    requires IsSpanningTree(g, s, t) && s in inside && y < |g.adj| && y !in inside
    ensures var ys := Climb(g, s, t, inside, y);
      && |ys| >= 1 && ys[0] == y
      && (forall m :: 0 <= m < |ys| ==> ys[m] < |g.adj| && ys[m] !in inside)
      && (forall m :: 0 <= m < |ys| - 1 ==> t.parent[ys[m]] == ys[m + 1])
      && t.parent[ys[|ys| - 1]] in inside
      && (forall i, j :: 0 <= i < j < |ys| ==> t.rank[ys[j]] < t.rank[ys[i]])
    decreases t.rank[y]
  {
    assert Hangs(g, t, y);
    var p := t.parent[y];
    if p !in inside {
      ClimbFacts(g, s, t, inside, p);
      var rest := Climb(g, s, t, inside, p);
      var ys := [y] + rest;
      assert ys == Climb(g, s, t, inside, y);
      forall i, j | 0 <= i < j < |ys| ensures t.rank[ys[j]] < t.rank[ys[i]] {
        if i == 0 && j > 1 {
          assert t.rank[rest[j - 1]] < t.rank[rest[0]];
        }
      }
    }
  }

  /** `t` with the climb `ys` turned around: its first node hangs below `u` by weight `w`, each
      later node below its predecessor on the climb by the entry that joined the two, and the
      edge above the climb's last node is dropped. Inside nodes keep their ranks, the climb counts
      up from `big`, and every other node moves above the climb. */
  ghost function Reroot(t: RootedTree, ys: seq<nat>, u: nat, w: Weight, inside: set<nat>, big: nat): RootedTree
    requires Sized(t, |t.parent|)
    requires forall m :: 0 <= m < |ys| ==> ys[m] < |t.parent|
  {
    var n := |t.parent|;
    RootedTree(
      seq(n, y requires 0 <= y < n =>
        if y in ys then (var m := IndexOf(ys, y); if m == 0 then u else ys[m - 1]) else t.parent[y]),
      seq(n, y requires 0 <= y < n =>
        if y in ys then (var m := IndexOf(ys, y); if m == 0 then w else t.weight[ys[m - 1]]) else t.weight[y]),
      seq(n, y requires 0 <= y < n =>
        if y in inside then t.rank[y] else if y in ys then big + IndexOf(ys, y) else t.rank[y] + big + |ys|))
  }

  /** `before` with the values shifted one place along the positions `ys` and `w` fed in at the
      front: position `ys[0]` gets `w`, position `ys[m]` gets what `ys[m - 1]` held. */
  function Rotated(before: seq<nat>, ys: seq<nat>, w: nat): (after: seq<nat>)
    requires |ys| >= 1 && forall m :: 0 <= m < |ys| ==> ys[m] < |before|
    ensures |after| == |before|
    decreases |ys|
  {
    if |ys| == 1 then before[ys[0] := w]
    else Rotated(before, ys[..|ys| - 1], w)[ys[|ys| - 1] := before[ys[|ys| - 2]]]
  }

  /** Positions off the rotation keep their values. */
  lemma {:induction false} RotatedOutside(before: seq<nat>, ys: seq<nat>, w: nat, y: nat)
    requires |ys| >= 1 && forall m :: 0 <= m < |ys| ==> ys[m] < |before|
    requires y < |before| && y !in ys
    ensures Rotated(before, ys, w)[y] == before[y]
    decreases |ys|
  {
    if |ys| > 1 {
      RotatedOutside(before, ys[..|ys| - 1], w, y);
    }
  }

  /** With distinct positions, each position on the rotation holds its predecessor's old value. */
  lemma {:induction false} RotatedAt(before: seq<nat>, ys: seq<nat>, w: nat)
    requires |ys| >= 1 && forall m :: 0 <= m < |ys| ==> ys[m] < |before|
    requires forall i, j :: 0 <= i < j < |ys| ==> ys[i] != ys[j]
    ensures Rotated(before, ys, w)[ys[0]] == w
    ensures forall m :: 0 < m < |ys| ==> Rotated(before, ys, w)[ys[m]] == before[ys[m - 1]]
    decreases |ys|
  {
    if |ys| > 1 {
      RotatedAt(before, ys[..|ys| - 1], w);
    }
  }

  /** The rotation trades the value at the last position for `w`. */
  lemma {:induction false} RotatedSum(before: seq<nat>, ys: seq<nat>, w: nat)
    requires |ys| >= 1 && forall m :: 0 <= m < |ys| ==> ys[m] < |before|
    requires forall i, j :: 0 <= i < j < |ys| ==> ys[i] != ys[j]
    ensures Sum(Rotated(before, ys, w)) + before[ys[|ys| - 1]] == Sum(before) + w
    decreases |ys|
  {
    if |ys| == 1 {
      SumUpdate(before, ys[0], w);
    } else {
      var prefix, last := ys[..|ys| - 1], ys[|ys| - 1];
      RotatedSum(before, prefix, w);
      RotatedOutside(before, prefix, w, last);
      SumUpdate(Rotated(before, prefix, w), last, before[ys[|ys| - 2]]);
    }
  }

  /** Any sequence that agrees with the rotation position by position has its sum. */
  lemma RotateSum(before: seq<nat>, after: seq<nat>, ys: seq<nat>, w: nat)
    requires |after| == |before| && |ys| >= 1
    requires forall m :: 0 <= m < |ys| ==> ys[m] < |before|
    requires forall i, j :: 0 <= i < j < |ys| ==> ys[i] != ys[j]
    requires after[ys[0]] == w
    requires forall m :: 0 < m < |ys| ==> after[ys[m]] == before[ys[m - 1]]
    requires forall y :: 0 <= y < |before| && y !in ys ==> after[y] == before[y]
    ensures Sum(after) + before[ys[|ys| - 1]] == Sum(before) + w
  {
    var r := Rotated(before, ys, w);
    RotatedAt(before, ys, w);
    forall y | 0 <= y < |before| ensures after[y] == r[y] {
      if y in ys {
        var m := IndexOf(ys, y);
        if m == 0 {
          assert after[y] == w == r[y];
        } else {
          assert after[y] == before[ys[m - 1]] == r[y];
        }
      } else {
        RotatedOutside(before, ys, w, y);
      }
    }
    assert after == r;
    RotatedSum(before, ys, w);
  }

  /** One node of the re-rooted tree hangs correctly. */
  lemma RerootHangs(g: Graph, s: nat, t: RootedTree, inside: set<nat>, u: nat, v: nat, w: Weight,
                    ys: seq<nat>, big: nat, y: nat)
    requires Symmetric(g) && IsSpanningTree(g, s, t)
    requires s in inside && forall x :: x in inside && x != s ==> x < |g.adj| && t.parent[x] in inside
    requires u in inside && u < |g.adj| && v < |g.adj| && v !in inside && Edge(v, w) in g.adj[u]
    requires |ys| >= 1 && ys[0] == v
    requires forall m :: 0 <= m < |ys| ==> ys[m] < |g.adj| && ys[m] !in inside
    requires forall m :: 0 <= m < |ys| - 1 ==> t.parent[ys[m]] == ys[m + 1]
    requires forall i, j :: 0 <= i < j < |ys| ==> ys[i] != ys[j]
    requires forall x :: 0 <= x < |g.adj| ==> t.rank[x] < big
    requires y < |g.adj| && y != s
    ensures Hangs(g, Reroot(t, ys, u, w, inside, big), y)
  {
    if y in inside {
      assert y !in ys;
      assert Hangs(g, t, y);
    } else if y in ys {
      var m := IndexOf(ys, y);
      if m > 0 {
        var x := ys[m - 1];
        assert IndexOf(ys, x) == m - 1;
        assert Hangs(g, t, x);
        Mirror(g, y, x, t.weight[x]);
      }
    } else {
      assert Hangs(g, t, y);
      var p := t.parent[y];
      if p in ys {
        var i := IndexOf(ys, p);
      }
    }
  }

  /** Turning the climb from `v` around and hanging `v` below the inside node `u` gives a
      spanning tree again: on an undirected graph every climb edge can be used the other way. */
  lemma RerootSpans(g: Graph, s: nat, t: RootedTree, inside: set<nat>, u: nat, v: nat, w: Weight,
                    ys: seq<nat>, big: nat)
    requires Symmetric(g) && IsSpanningTree(g, s, t)
    requires s in inside && forall y :: y in inside && y != s ==> y < |g.adj| && t.parent[y] in inside
    requires u in inside && u < |g.adj| && v < |g.adj| && v !in inside && Edge(v, w) in g.adj[u]
    requires ys == Climb(g, s, t, inside, v) && forall m :: 0 <= m < |ys| ==> ys[m] < |g.adj|
    requires forall y :: 0 <= y < |g.adj| ==> t.rank[y] < big
    ensures IsSpanningTree(g, s, Reroot(t, ys, u, w, inside, big))
  {
    ClimbFacts(g, s, t, inside, v);
    assert forall i, j :: 0 <= i < j < |ys| ==> ys[i] != ys[j];
    var t' := Reroot(t, ys, u, w, inside, big);
    forall y | 0 <= y < |g.adj| && y != s ensures Hangs(g, t', y) {
      RerootHangs(g, s, t, inside, u, v, w, ys, big, y);
    }
    assert !(s in ys);
  }

  /** No edge leaving the node set `inside` weighs less than `w`. */
  ghost predicate Cheapest(g: Graph, inside: set<nat>, w: nat) {
    forall a, i :: 0 <= a < |g.adj| && a in inside && 0 <= i < |g.adj[a]| && g.adj[a][i].to !in inside ==>
      w <= g.adj[a][i].weight
  }

  /** A tree containing an attachment-order list of tree edges keeps the listed nodes together:
      each of them other than the root has its parent among them. */
  lemma ExtendsClosed(g: Graph, s: nat, t: RootedTree, arcs: seq<TreeEdge>)
    requires IsSpanningTree(g, s, t) && IsTreeFrom(s, Pairs(arcs)) && Extends(t, arcs)
    ensures forall y :: y in TreeNodes(s, Pairs(arcs)) ==> y < |g.adj|
    ensures forall y :: y in TreeNodes(s, Pairs(arcs)) && y != s ==> t.parent[y] in TreeNodes(s, Pairs(arcs))
  {
    var inside := TreeNodes(s, Pairs(arcs));
    ParentsInTree(s, Pairs(arcs));
    forall y | y in inside && y != s ensures y < |g.adj| && t.parent[y] in inside {
      var k :| 0 <= k < |arcs| && Pairs(arcs)[k].1 == y;
      assert Pairs(arcs)[k].0 == arcs[k].0;
    }
  }

  /** The cut step. `t` contains the tree edges chosen so far; `(u, v, w)` leaves their node set
      as cheaply as any edge does. Then some spanning tree no heavier than `t` contains the chosen
      edges and `(u, v, w)` as well. */
  lemma Exchange(g: Graph, s: nat, t: RootedTree, arcs: seq<TreeEdge>, u: nat, v: nat, w: Weight)
    returns (t': RootedTree)
    requires Symmetric(g) && IsSpanningTree(g, s, t)
    requires IsTreeFrom(s, Pairs(arcs)) && Extends(t, arcs)
    requires u < |g.adj| && u in TreeNodes(s, Pairs(arcs))
    requires v < |g.adj| && v !in TreeNodes(s, Pairs(arcs)) && Edge(v, w) in g.adj[u]
    requires Cheapest(g, TreeNodes(s, Pairs(arcs)), w)
    ensures IsSpanningTree(g, s, t') && Extends(t', arcs + [(u, v, w)])
    ensures TreeWeight(t') <= TreeWeight(t)
  {
    var inside := TreeNodes(s, Pairs(arcs));
    ExtendsClosed(g, s, t, arcs);
    var big := Bound(t.rank);
    ClimbFacts(g, s, t, inside, v);
    var ys := Climb(g, s, t, inside, v);
    assert forall i, j :: 0 <= i < j < |ys| ==> ys[i] != ys[j];
    RerootSpans(g, s, t, inside, u, v, w, ys, big);
    t' := Reroot(t, ys, u, w, inside, big);
    // the edge above the climb leaves `inside`, so it is no cheaper than `(u, v, w)`
    var z := ys[|ys| - 1];
    assert Hangs(g, t, z);
    var p := t.parent[z];
    var i :| 0 <= i < |g.adj[p]| && g.adj[p][i] == Edge(z, t.weight[z]);
    assert w <= t.weight[z];
    RerootWeights(t, ys, u, w, inside, big);
    RotateSum(t.weight, t'.weight, ys, w);
    RerootExtends(t, arcs, ys, u, v, w, inside, big, s);
  }

  /** The re-rooted weights are the rotation of the old ones along the climb. */
  lemma RerootWeights(t: RootedTree, ys: seq<nat>, u: nat, w: Weight, inside: set<nat>, big: nat)
    requires Sized(t, |t.parent|) && |ys| >= 1
    requires forall m :: 0 <= m < |ys| ==> ys[m] < |t.parent|
    requires forall i, j :: 0 <= i < j < |ys| ==> ys[i] != ys[j]
    ensures var t' := Reroot(t, ys, u, w, inside, big);
      && |t'.weight| == |t.weight|
      && t'.weight[ys[0]] == w
      && (forall m :: 0 < m < |ys| ==> t'.weight[ys[m]] == t.weight[ys[m - 1]])
      && (forall y :: 0 <= y < |t.weight| && y !in ys ==> t'.weight[y] == t.weight[y])
  {
    var t' := Reroot(t, ys, u, w, inside, big);
    assert IndexOf(ys, ys[0]) == 0;
    forall m | 0 < m < |ys| ensures t'.weight[ys[m]] == t.weight[ys[m - 1]] {
      assert IndexOf(ys, ys[m]) == m;
    }
  }

  /** Re-rooting keeps the chosen edges, whose children are all inside, and adds `(u, v, w)`. */
  lemma RerootExtends(t: RootedTree, arcs: seq<TreeEdge>, ys: seq<nat>, u: nat, v: nat, w: Weight,
                      inside: set<nat>, big: nat, s: nat)
    requires Sized(t, |t.parent|) && Extends(t, arcs) && |ys| >= 1 && ys[0] == v
    requires forall m :: 0 <= m < |ys| ==> ys[m] < |t.parent| && ys[m] !in inside
    requires inside == TreeNodes(s, Pairs(arcs))
    ensures Extends(Reroot(t, ys, u, w, inside, big), arcs + [(u, v, w)])
  {
    var t', all := Reroot(t, ys, u, w, inside, big), arcs + [(u, v, w)];
    assert IndexOf(ys, v) == 0;
    forall k | 0 <= k < |all|
      ensures all[k].1 < |t'.parent| && all[k].1 < |t'.weight|
      ensures t'.parent[all[k].1] == all[k].0 && t'.weight[all[k].1] == all[k].2
    {
      if k < |arcs| {
        var c := arcs[k].1;
        assert Pairs(arcs)[k].1 == c;
        assert c in inside;
        assert c !in ys;
      }
    }
  }

  /** The parent-pointer form of an attachment-order list of tree edges over `n` nodes: each
      listed child gets its listed parent and weight and, as rank, its position in the list plus
      one. Unlisted nodes keep parent `s`, weight 0 and rank 0. */
  function Attached(s: nat, arcs: seq<TreeEdge>, n: nat): (t: RootedTree)
    requires forall k :: 0 <= k < |arcs| ==> arcs[k].1 < n
    ensures Sized(t, n)
    decreases |arcs|
  {
    if |arcs| == 0 then RootedTree(seq(n, _ => s), seq(n, _ => 0), seq(n, _ => 0))
    else
      var t, a := Attached(s, arcs[..|arcs| - 1], n), arcs[|arcs| - 1];
      RootedTree(t.parent[a.1 := a.0], t.weight[a.1 := a.2], t.rank[a.1 := |arcs|])
  }

  /** Nodes the list never attaches keep weight 0 and rank 0. */
  lemma {:induction false} AttachedUnlisted(s: nat, arcs: seq<TreeEdge>, n: nat)
    requires forall k :: 0 <= k < |arcs| ==> arcs[k].1 < n
    ensures var t := Attached(s, arcs, n);
      forall y :: 0 <= y < n && y !in Children(Pairs(arcs)) ==> t.weight[y] == 0 && t.rank[y] == 0
    decreases |arcs|
  {
    if |arcs| > 0 {
      var prefix, a := arcs[..|arcs| - 1], arcs[|arcs| - 1];
      AttachedUnlisted(s, prefix, n);
      ChildrenAppend(Pairs(prefix), (a.0, a.1));
      assert Pairs(arcs) == Pairs(prefix) + [(a.0, a.1)];
    }
  }

  /** Each listed child is attached once, so the parent-pointer form keeps every listed edge. */
  lemma {:induction false} AttachedExtends(s: nat, arcs: seq<TreeEdge>, n: nat)
    requires IsTreeFrom(s, Pairs(arcs))
    requires forall k :: 0 <= k < |arcs| ==> arcs[k].1 < n
    ensures Extends(Attached(s, arcs, n), arcs)
    decreases |arcs|
  {
    if |arcs| > 0 {
      var prefix, a := arcs[..|arcs| - 1], arcs[|arcs| - 1];
      PairsPrefix(arcs, |arcs| - 1);
      AttachedExtends(s, prefix, n);
      assert Pairs(arcs)[|arcs| - 1] == (a.0, a.1);
      forall k | 0 <= k < |prefix| ensures arcs[k].1 != a.1 {
        assert Pairs(prefix)[k].1 == arcs[k].1;
      }
    }
  }

  /** The parent-pointer form weighs what the list does. */
  lemma {:induction false} AttachedWeight(s: nat, arcs: seq<TreeEdge>, n: nat)
    requires IsTreeFrom(s, Pairs(arcs))
    requires forall k :: 0 <= k < |arcs| ==> arcs[k].1 < n
    ensures TreeWeight(Attached(s, arcs, n)) == Weights(arcs)
    decreases |arcs|
  {
    var t := Attached(s, arcs, n);
    if |arcs| == 0 {
      ZeroSum(t.weight);
    } else {
      var prefix, a := arcs[..|arcs| - 1], arcs[|arcs| - 1];
      PairsPrefix(arcs, |arcs| - 1);
      AttachedWeight(s, prefix, n);
      AttachedUnlisted(s, prefix, n);
      assert Pairs(arcs)[|arcs| - 1] == (a.0, a.1);
      SumUpdate(Attached(s, prefix, n).weight, a.1, a.2);
    }
  }

  /** Attaching `a` with rank `k + 1` keeps every node already hanging below a node other than
      `a`'s child. */
  lemma AttachStep(g: Graph, t0: RootedTree, a: TreeEdge, k: nat, y: nat)
    requires Sized(t0, |g.adj|) && a.1 < |g.adj| && y < |g.adj| && IsArc(g, a) && a.0 != a.1
    requires t0.rank[a.0] <= k
    requires y != a.1 ==> Hangs(g, t0, y) && t0.rank[y] <= k && t0.parent[y] != a.1
    ensures var t := RootedTree(t0.parent[a.1 := a.0], t0.weight[a.1 := a.2], t0.rank[a.1 := k + 1]);
      Hangs(g, t, y) && t.rank[y] <= k + 1
  {
  }

  /** Every listed child hangs by a graph edge below a node of the tree of lower rank. */
  lemma {:induction false} AttachedHangs(g: Graph, s: nat, arcs: seq<TreeEdge>)
    requires s < |g.adj| && IsTreeFrom(s, Pairs(arcs))
    requires forall k :: 0 <= k < |arcs| ==> arcs[k].1 < |g.adj| && IsArc(g, arcs[k])
    ensures var t := Attached(s, arcs, |g.adj|);
      forall y :: 0 <= y < |g.adj| && y in Children(Pairs(arcs)) ==>
        Hangs(g, t, y) && t.rank[y] <= |arcs| && t.parent[y] in TreeNodes(s, Pairs(arcs))
    decreases |arcs|
  {
    if |arcs| > 0 {
      var n := |g.adj|;
      var t := Attached(s, arcs, n);
      var prefix, a := arcs[..|arcs| - 1], arcs[|arcs| - 1];
      var t0 := Attached(s, prefix, n);
      var before := TreeNodes(s, Pairs(prefix));
      PairsPrefix(arcs, |arcs| - 1);
      AttachedHangs(g, s, prefix);
      AttachedUnlisted(s, prefix, n);
      RootNotChild(s, Pairs(prefix));
      assert Pairs(arcs)[|arcs| - 1] == (a.0, a.1);
      assert a.0 in before && a.1 !in before;
      Attach(s, Pairs(prefix), (a.0, a.1));
      assert Pairs(arcs) == Pairs(prefix) + [(a.0, a.1)];
      assert t0.rank[a.0] <= |prefix| by {
        if a.0 in Children(Pairs(prefix)) {
          assert Hangs(g, t0, a.0);
        }
      }
      assert t == RootedTree(t0.parent[a.1 := a.0], t0.weight[a.1 := a.2], t0.rank[a.1 := |prefix| + 1]);
      forall y | 0 <= y < n && y in Children(Pairs(arcs))
        ensures Hangs(g, t, y) && t.rank[y] <= |arcs| && t.parent[y] in TreeNodes(s, Pairs(arcs))
      {
        AttachStep(g, t0, a, |prefix|, y);
      }
    }
  }

  /** An attachment-order list of graph edges that reaches every node is a spanning tree of the
      same weight. */
  lemma AttachedSpans(g: Graph, s: nat, arcs: seq<TreeEdge>)
    requires s < |g.adj| && IsTreeFrom(s, Pairs(arcs))
    requires forall k :: 0 <= k < |arcs| ==> arcs[k].1 < |g.adj| && IsArc(g, arcs[k])
    requires forall y :: 0 <= y < |g.adj| ==> y in TreeNodes(s, Pairs(arcs))
    ensures IsSpanningTree(g, s, Attached(s, arcs, |g.adj|))
    ensures TreeWeight(Attached(s, arcs, |g.adj|)) == Weights(arcs)
  {
    var t := Attached(s, arcs, |g.adj|);
    AttachedHangs(g, s, arcs);
    AttachedUnlisted(s, arcs, |g.adj|);
    AttachedWeight(s, arcs, |g.adj|);
    RootNotChild(s, Pairs(arcs));
    forall y | 0 <= y < |g.adj| && y != s ensures Hangs(g, t, y) {
      assert y in TreeNodes(s, Pairs(arcs));
    }
  }

  /** A spanning tree that contains an attachment-order list reaching every node is that list:
      it weighs exactly what the list does. */
  lemma FullExtension(g: Graph, s: nat, t: RootedTree, arcs: seq<TreeEdge>)
    requires IsSpanningTree(g, s, t) && Extends(t, arcs) && IsTreeFrom(s, Pairs(arcs))
    requires forall k :: 0 <= k < |arcs| ==> arcs[k].1 < |g.adj|
    requires forall y :: 0 <= y < |g.adj| ==> y in TreeNodes(s, Pairs(arcs))
    ensures TreeWeight(t) == Weights(arcs)
  {
    var n := |g.adj|;
    var a := Attached(s, arcs, n);
    AttachedExtends(s, arcs, n);
    AttachedWeight(s, arcs, n);
    AttachedUnlisted(s, arcs, n);
    RootNotChild(s, Pairs(arcs));
    forall y | 0 <= y < n ensures t.weight[y] == a.weight[y] {
      if y != s {
        assert y in TreeNodes(s, Pairs(arcs));
        var k :| 0 <= k < |arcs| && Pairs(arcs)[k].1 == y;
      }
    }
    assert t.weight == a.weight;
  }
}
