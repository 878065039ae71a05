/** The traversal engine (`dfs`): an explicit-stack depth-first search that descends into the
    first unvisited neighbour in adjacency order and records a snapshot at the start, on every
    first visit, on every backtrack and at the end. */
module Dfs {

  import opened Options
  import opened Graphs
  import opened Walks
  import opened Trees

  /** Indices whose flag is set, ascending (`(0..n).filter(|&i| visited[i])`). */
  function VisitedList(visited: seq<bool>): seq<nat> {
    VisitedFrom(visited, 0)
  }

  /** Indices from `lo` on whose flag is set, ascending. */
  function VisitedFrom(visited: seq<bool>, lo: nat): seq<nat>
    requires lo <= |visited|
    decreases |visited| - lo
  {
    if lo == |visited| then []
    else (if visited[lo] then [lo] else []) + VisitedFrom(visited, lo + 1)
  }

  /** The list from `lo` is ascending, starts at `lo` or later, and holds exactly the flagged
      indices from `lo` on. */
  lemma {:induction false} VisitedFromSpec(visited: seq<bool>, lo: nat)
    requires lo <= |visited|
    ensures var r := VisitedFrom(visited, lo);
            && (forall i, j :: 0 <= i < j < |r| ==> r[i] < r[j])
            && (forall i :: 0 <= i < |r| ==> lo <= r[i])
            && (forall x: int :: x in r <==> lo <= x < |visited| && visited[x])
    decreases |visited| - lo
  {
    if lo < |visited| {
      VisitedFromSpec(visited, lo + 1);
      var rest := VisitedFrom(visited, lo + 1);
      var r := VisitedFrom(visited, lo);
      assert r == (if visited[lo] then [lo] else []) + rest;
      forall x: int | x in r ensures lo <= x < |visited| && visited[x] {
        if x != lo || !visited[lo] {
          assert x in rest;
        }
      }
      forall x: int | lo <= x < |visited| && visited[x] ensures x in r {
        if x != lo {
          assert x in rest;
        }
      }
    }
  }

  /** The visited list is ascending and lists exactly the visited nodes. */
  lemma VisitedListSpec(visited: seq<bool>)
    ensures forall i, j :: 0 <= i < j < |VisitedList(visited)| ==> VisitedList(visited)[i] < VisitedList(visited)[j]
    ensures forall x: int :: x in VisitedList(visited) <==> 0 <= x < |visited| && visited[x]
  {
    VisitedFromSpec(visited, 0);
  }

  /** `(u, e.to)` for each entry `e` of `es` whose target is not visited, in list order. */
  function Candidates(u: nat, es: seq<Edge>, visited: seq<bool>): seq<(nat, nat)>
    requires forall i :: 0 <= i < |es| ==> es[i].to < |visited|
  {
    if |es| == 0 then []
    else (if !visited[es[0].to] then [(u, es[0].to)] else []) + Candidates(u, es[1..], visited)
  }

  /** The candidates are the pairs `(u, e.to)` for the entries `e` leading to unvisited nodes. */
  lemma {:induction false} CandidatesSpec(u: nat, es: seq<Edge>, visited: seq<bool>)
    requires forall i :: 0 <= i < |es| ==> es[i].to < |visited|
    ensures forall c :: c in Candidates(u, es, visited) ==>
              c.0 == u && c.1 < |visited| && !visited[c.1] && exists e :: e in es && e.to == c.1
    ensures forall e :: e in es && !visited[e.to] ==> (u, e.to) in Candidates(u, es, visited)
  {
    if |es| > 0 {
      var rest := es[1..];
      CandidatesSpec(u, rest, visited);
      var head := if !visited[es[0].to] then [(u, es[0].to)] else [];
      var r := Candidates(u, es, visited);
      assert r == head + Candidates(u, rest, visited);
      forall c | c in r ensures c.0 == u && c.1 < |visited| && !visited[c.1] && exists e :: e in es && e.to == c.1 {
        if c in head {
          assert es[0] in es;
        } else {
          var e :| e in rest && e.to == c.1;
          assert e in es;
        }
      }
      forall e | e in es && !visited[e.to] ensures (u, e.to) in r {
        if e != es[0] {
          assert e in rest;
        }
      }
    }
  }

  /** Position of the first entry at or after `k` whose target is unvisited: the `for` loop with
      `break` that picks the node to descend into. */
  function FirstUnvisited(es: seq<Edge>, visited: seq<bool>, k: nat): (r: Option<nat>)
    requires k <= |es|
    requires forall i :: 0 <= i < |es| ==> es[i].to < |visited|
    ensures r.Some? ==> k <= r.value < |es| && !visited[es[r.value].to]
    ensures r.Some? ==> forall j :: k <= j < r.value ==> visited[es[j].to]
    ensures r.None? ==> forall j :: k <= j < |es| ==> visited[es[j].to]
    decreases |es| - k
  {
    if k == |es| then None
    else if !visited[es[k].to] then Some(k)
    else FirstUnvisited(es, visited, k + 1)
  }

  /** A snapshot taken on a visit or a backtrack: the current node is visited, and the candidates
      are exactly the edges from it to the neighbours not yet visited. */
  ghost predicate ShowsFrontier(g: Graph, step: Step) {
    && step.currentNode.Some?
    && var u := step.currentNode.value;
    && u < |g.adj|
    && u in step.visitedNodes
    && (forall c :: c in step.candidateEdges ==>
          c.0 == u && c.1 !in step.visitedNodes && IsGraphEdge(g, u, c.1))
    && (forall e :: e in g.adj[u] && e.to !in step.visitedNodes ==> (u, e.to) in step.candidateEdges)
  }

  ghost function VisitedSet(visited: seq<bool>): set<nat> {
    set x | 0 <= x < |visited| && visited[x]
  }

  /** Marking `u` adds exactly `u` to the visited set. */
  lemma Mark(visited: seq<bool>, u: nat)
    requires u < |visited|
    ensures VisitedSet(visited[u := true]) == VisitedSet(visited) + {u}
  {
  }

  /** Unvisited nodes that are not on the stack: these have never been pushed. */
  ghost function NeverPushed(visited: seq<bool>, stack: seq<nat>): set<nat> {
    set x | 0 <= x < |visited| && !visited[x] && x !in stack
  }

  /** What the terminal snapshot promises about a traversal from `s`. */
  ghost predicate FinalStep(g: Graph, s: nat, last: Step) {
    && last.currentNode == None
    && last.candidateEdges == []
    && (forall i, j :: 0 <= i < j < |last.visitedNodes| ==> last.visitedNodes[i] < last.visitedNodes[j])
    && (forall v: int :: v in last.visitedNodes <==> 0 <= v < |g.adj| && Reachable(g, s, v))
    && IsTreeFrom(s, last.edgesInPath)
    && TreeNodes(s, last.edgesInPath) == Elements(last.visitedNodes)
    && |last.edgesInPath| == |last.visitedNodes| - 1
    && (forall k :: 0 <= k < |last.edgesInPath| ==> IsGraphEdge(g, last.edgesInPath[k].0, last.edgesInPath[k].1))
  }

  /** `dfs`: an unknown root yields an empty trace; otherwise the traversal from the root. */
  method Dfs(g: Graph, start: Option<nat>) returns (viz: Visualization)
    requires Valid(g)
    requires start.Some? ==> start.value < |g.adj|
    ensures start.None? ==> viz.steps == []
    ensures start.Some? ==> |viz.steps| >= 2 && viz.steps[0] == InitialStep(g, start.value)
    ensures start.Some? ==> FinalStep(g, start.value, viz.steps[|viz.steps| - 1])
    ensures forall k :: 0 < k < |viz.steps| - 1 ==> ShowsFrontier(g, viz.steps[k])
    ensures forall i, j :: 0 <= i <= j < |viz.steps| ==> viz.steps[i].edgesInPath <= viz.steps[j].edgesInPath
  {
    if start.None? {
      return Visualization([]);
    }
    var steps := Traverse(g, start.value);
    viz := Visualization(steps);
  }

  /** The state of the traversal loop: the visited flags, the stack, the tree edges recorded so
      far, the parent of every pushed node, and the snapshots taken so far. */
  datatype Search = Search(
    visited: seq<bool>,
    stack: seq<nat>,
    edges: seq<(nat, nat)>,
    parent: map<nat, nat>,
    steps: seq<Step>)

  /** The state before the first iteration. */
  function Start(g: Graph, s: nat): Search
    requires s < |g.adj|
  {
    Search(seq(|g.adj|, _ => false), [s], [], map[], [InitialStep(g, s)])
  }

  /** The snapshot recorded when `u` is visited or backtracked to. */
  function Snapshot(g: Graph, visited: seq<bool>, nodes: seq<nat>, u: nat, edges: seq<(nat, nat)>): Step
    requires Valid(g) && |visited| == |g.adj| && u < |g.adj|
  {
    Step(nodes, Some(u), edges, Candidates(u, g.adj[u], visited))
  }

  /** The tree edge added when `u` is first visited: none for the root. */
  function Discover(edges: seq<(nat, nat)>, parent: map<nat, nat>, u: nat): seq<(nat, nat)> {
    if u in parent then edges + [(parent[u], u)] else edges
  }

  /** First visit of the node on top of the stack: mark it, record its tree edge, take a snapshot. */
  function VisitTop(g: Graph, st: Search): Search
    requires Valid(g) && |st.visited| == |g.adj|
    requires |st.stack| > 0 && st.stack[|st.stack| - 1] < |g.adj|
  {
    var u := st.stack[|st.stack| - 1];
    var visited := st.visited[u := true];
    var edges := Discover(st.edges, st.parent, u);
    st.(visited := visited, edges := edges,
        steps := st.steps + [Snapshot(g, visited, VisitedList(visited), u, edges)])
  }

  /** Descend: push the neighbour at position `i` of the top's list, remembering its parent. */
  function Push(g: Graph, st: Search, i: nat): Search
    requires |st.stack| > 0 && st.stack[|st.stack| - 1] < |g.adj|
    requires i < |g.adj[st.stack[|st.stack| - 1]]|
  {
    var u := st.stack[|st.stack| - 1];
    var v := g.adj[u][i].to;
    st.(parent := st.parent[v := u], stack := st.stack + [v])
  }

  /** The snapshots after popping: a backtracking snapshot of the new top, if there is one, with
      the previous snapshot's visited list. */
  function Backtrack(g: Graph, visited: seq<bool>, edges: seq<(nat, nat)>, steps: seq<Step>, stack: seq<nat>): seq<Step>
    requires Valid(g) && |visited| == |g.adj| && |steps| > 0
    requires forall i :: 0 <= i < |stack| ==> stack[i] < |g.adj|
  {
    if |stack| == 0 then steps
    else steps + [Snapshot(g, visited, steps[|steps| - 1].visitedNodes, stack[|stack| - 1], edges)]
  }

  /** Backtrack: pop the top. */
  function Pop(g: Graph, st: Search): Search
    requires Valid(g) && |st.visited| == |g.adj| && |st.steps| > 0
    requires |st.stack| > 0 && forall i :: 0 <= i < |st.stack| ==> st.stack[i] < |g.adj|
  {
    var stack := st.stack[..|st.stack| - 1];
    st.(stack := stack, steps := Backtrack(g, st.visited, st.edges, st.steps, stack))
  }

  /** The node on top of the stack has been visited. */
  ghost predicate TopVisited(st: Search) {
    && |st.stack| > 0
    && st.stack[|st.stack| - 1] < |st.visited|
    && st.visited[st.stack[|st.stack| - 1]]
  }

  /** Unvisited nodes off the stack count twice, stack entries once. */
  ghost function Measure(st: Search): nat {
    2 * |NeverPushed(st.visited, st.stack)| + |st.stack|
  }

  /** The stack discipline and the bookkeeping: distinct in-range entries, all visited except
      perhaps the top; the untouched state before the root is visited; and at least one snapshot
      beyond the initial one afterwards. */
  ghost predicate Core(g: Graph, s: nat, st: Search) {
    && Valid(g) && s < |g.adj|
    && |st.visited| == |g.adj|
    && (forall i :: 0 <= i < |st.stack| ==> st.stack[i] < |g.adj|)
    && (forall i, j :: 0 <= i < j < |st.stack| ==> st.stack[i] != st.stack[j])
    && (forall i :: 0 <= i < |st.stack| - 1 ==> st.stack[i] < |st.visited| && st.visited[st.stack[i]])
    && (!st.visited[s] ==> st.stack == [s] && st.edges == [] && st.parent == map[] && st.steps == [InitialStep(g, s)])
    && (!st.visited[s] ==> forall x :: 0 <= x < |g.adj| ==> !st.visited[x])
    && (st.visited[s] ==> |st.steps| >= 2)
  }

  /** The discovered part: a tree of graph edges from `s` whose nodes are the visited ones, all
      reachable from `s`. */
  ghost predicate Shape(g: Graph, s: nat, st: Search)
    requires Valid(g) && |st.visited| == |g.adj| && s < |g.adj|
  {
    && (st.visited[s] ==> VisitedSet(st.visited) == TreeNodes(s, st.edges))
    && IsTreeFrom(s, st.edges)
    && (forall k :: 0 <= k < |st.edges| ==> IsGraphEdge(g, st.edges[k].0, st.edges[k].1))
    && (forall x :: 0 <= x < |g.adj| && st.visited[x] ==> Reachable(g, s, x))
  }

  /** Every pushed node other than the root remembers a visited parent joined to it by an edge. */
  ghost predicate Parents(g: Graph, s: nat, st: Search)
    requires Valid(g) && |st.visited| == |g.adj| && s < |g.adj|
  {
    && s !in st.parent
    && (forall x :: x in st.parent ==>
          st.parent[x] < |g.adj| && st.visited[st.parent[x]] && IsGraphEdge(g, st.parent[x], x))
    && (st.visited[s] && |st.stack| > 0 && st.stack[|st.stack| - 1] < |g.adj| && !st.visited[st.stack[|st.stack| - 1]] ==>
          st.stack[|st.stack| - 1] in st.parent)
  }

  /** Every visited node off the stack has all its neighbours visited. */
  ghost predicate Explored(g: Graph, st: Search)
    requires Valid(g) && |st.visited| == |g.adj|
  {
    forall x, i :: 0 <= x < |g.adj| && st.visited[x] && x !in st.stack && 0 <= i < |g.adj[x]| ==>
      st.visited[g.adj[x][i].to]
  }

  ghost predicate TreeInv(g: Graph, s: nat, st: Search)
    requires Valid(g) && |st.visited| == |g.adj| && s < |g.adj|
  {
    Shape(g, s, st) && Parents(g, s, st) && Explored(g, st)
  }

  /** The snapshots so far: the first is the initial one, the later ones show a frontier, the last
      lists the visited nodes, and the recorded paths only grow. */
  ghost predicate TraceInv(g: Graph, s: nat, st: Search)
    requires s < |g.adj|
  {
    Trace(g, s, st.steps, st.visited, st.edges)
  }

  ghost predicate Trace(g: Graph, s: nat, steps: seq<Step>, visited: seq<bool>, edges: seq<(nat, nat)>)
    requires s < |g.adj|
  {
    && |steps| >= 1 && steps[0] == InitialStep(g, s)
    && steps[|steps| - 1].visitedNodes == VisitedList(visited)
    && (forall k :: 0 < k < |steps| ==> ShowsFrontier(g, steps[k]))
    && (forall i, j :: 0 <= i <= j < |steps| ==> steps[i].edgesInPath <= steps[j].edgesInPath)
    && (forall i :: 0 <= i < |steps| ==> steps[i].edgesInPath <= edges)
  }

  /** A snapshot showing a frontier, taken with the current visited list and tree, extends a trace. */
  lemma TraceAppend(g: Graph, s: nat, steps: seq<Step>, visited: seq<bool>, edges: seq<(nat, nat)>,
                    visited': seq<bool>, edges': seq<(nat, nat)>, step: Step)
    requires s < |g.adj| && Trace(g, s, steps, visited, edges)
    requires edges <= edges' && step.edgesInPath == edges'
    requires step.visitedNodes == VisitedList(visited') && ShowsFrontier(g, step)
    ensures Trace(g, s, steps + [step], visited', edges')
  {
  }

  /** The loop invariant of the traversal. */
  ghost predicate Invariant(g: Graph, s: nat, st: Search) {
    && Core(g, s, st)
    && TreeInv(g, s, st)
    && TraceInv(g, s, st)
  }

  lemma {:induction false} NothingVisited(visited: seq<bool>, lo: nat)
    requires lo <= |visited|
    requires forall x :: 0 <= x < |visited| ==> !visited[x]
    ensures VisitedFrom(visited, lo) == []
    decreases |visited| - lo
  {
    if lo < |visited| {
      NothingVisited(visited, lo + 1);
    }
  }

  lemma StartKeeps(g: Graph, s: nat)
    requires Valid(g) && s < |g.adj|
    ensures Invariant(g, s, Start(g, s))
  {
    var st := Start(g, s);
    NothingVisited(st.visited, 0);
    assert Core(g, s, st);
    assert TreeInv(g, s, st);
  }

  lemma VisitCore(g: Graph, s: nat, st: Search)
    requires Core(g, s, st)
    requires |st.stack| > 0 && !st.visited[st.stack[|st.stack| - 1]]
    ensures Core(g, s, VisitTop(g, st))
    ensures TopVisited(VisitTop(g, st))
    ensures Measure(VisitTop(g, st)) == Measure(st)
  {
    var next := VisitTop(g, st);
    assert next.visited[s];
    assert NeverPushed(next.visited, next.stack) == NeverPushed(st.visited, st.stack);
  }

  lemma VisitTree(g: Graph, s: nat, st: Search)
    requires Core(g, s, st) && TreeInv(g, s, st)
    requires |st.stack| > 0 && !st.visited[st.stack[|st.stack| - 1]]
    ensures TreeInv(g, s, VisitTop(g, st))
    ensures st.edges <= VisitTop(g, st).edges
  {
    if st.stack[|st.stack| - 1] in st.parent {
      VisitChild(g, s, st);
    } else {
      VisitRoot(g, s, st);
    }
    VisitParents(g, s, st);
    VisitExplored(g, s, st);
  }

  /** A node reached through a push hangs below its recorded parent. */
  lemma VisitChild(g: Graph, s: nat, st: Search)
    requires Core(g, s, st) && Shape(g, s, st) && Parents(g, s, st)
    requires |st.stack| > 0 && !st.visited[st.stack[|st.stack| - 1]] && st.stack[|st.stack| - 1] in st.parent
    ensures Shape(g, s, VisitTop(g, st))
  {
    var u := st.stack[|st.stack| - 1];
    var next := VisitTop(g, st);
    assert u != s && st.visited[s];
    assert next.edges == st.edges + [(st.parent[u], u)];
    var p := st.parent[u];
    Attach(s, st.edges, (p, u));
    assert p < |g.adj| && st.visited[p];
    assert Reachable(g, s, p);
    ReachableAlong(g, s, p, u);
    Mark(st.visited, u);
  }

  /** The first visit is that of the root, with nothing visited before. */
  lemma VisitRoot(g: Graph, s: nat, st: Search)
    requires Core(g, s, st) && Shape(g, s, st) && Parents(g, s, st)
    requires |st.stack| > 0 && !st.visited[st.stack[|st.stack| - 1]] && st.stack[|st.stack| - 1] !in st.parent
    ensures Shape(g, s, VisitTop(g, st))
  {
    var next := VisitTop(g, st);
    assert st.stack[|st.stack| - 1] == s;
    assert next.edges == st.edges;
    ReachableRefl(g, s);
    assert VisitedSet(next.visited) == {s};
  }

  lemma VisitParents(g: Graph, s: nat, st: Search)
    requires Core(g, s, st) && Parents(g, s, st)
    requires |st.stack| > 0 && !st.visited[st.stack[|st.stack| - 1]]
    ensures Parents(g, s, VisitTop(g, st))
  {
  }

  lemma VisitExplored(g: Graph, s: nat, st: Search)
    requires Core(g, s, st) && Explored(g, st)
    requires |st.stack| > 0 && !st.visited[st.stack[|st.stack| - 1]]
    ensures Explored(g, VisitTop(g, st))
  {
  }

  /** A snapshot of a visited node, taken with the list of visited nodes, shows its frontier. */
  lemma SnapshotShows(g: Graph, visited: seq<bool>, u: nat, edges: seq<(nat, nat)>)
    requires Valid(g) && |visited| == |g.adj| && u < |g.adj| && visited[u]
    ensures ShowsFrontier(g, Snapshot(g, visited, VisitedList(visited), u, edges))
  {
    VisitedListSpec(visited);
    CandidatesSpec(u, g.adj[u], visited);
  }

  lemma VisitTrace(g: Graph, s: nat, st: Search)
    requires Core(g, s, st) && TraceInv(g, s, st)
    requires |st.stack| > 0 && st.stack[|st.stack| - 1] < |g.adj|
    requires st.edges <= VisitTop(g, st).edges
    ensures TraceInv(g, s, VisitTop(g, st))
  {
    var u := st.stack[|st.stack| - 1];
    var next := VisitTop(g, st);
    var snap := Snapshot(g, next.visited, VisitedList(next.visited), u, next.edges);
    SnapshotShows(g, next.visited, u, next.edges);
    TraceAppend(g, s, st.steps, st.visited, st.edges, next.visited, next.edges, snap);
    assert next.steps == st.steps + [snap];
  }

  lemma VisitKeeps(g: Graph, s: nat, st: Search)
    requires Invariant(g, s, st)
    requires |st.stack| > 0 && !st.visited[st.stack[|st.stack| - 1]]
    ensures Invariant(g, s, VisitTop(g, st))
    ensures TopVisited(VisitTop(g, st))
    ensures Measure(VisitTop(g, st)) == Measure(st)
  {
    VisitCore(g, s, st);
    VisitTree(g, s, st);
    VisitTrace(g, s, st);
  }

  lemma PushCore(g: Graph, s: nat, st: Search, i: nat)
    requires Core(g, s, st) && TopVisited(st)
    requires i < |g.adj[st.stack[|st.stack| - 1]]| && !st.visited[g.adj[st.stack[|st.stack| - 1]][i].to]
    ensures Core(g, s, Push(g, st, i))
    ensures Measure(Push(g, st, i)) < Measure(st)
  {
    var u := st.stack[|st.stack| - 1];
    var v := g.adj[u][i].to;
    var next := Push(g, st, i);
    assert next.stack == st.stack + [v];
    assert v !in st.stack;
    assert NeverPushed(next.visited, next.stack) == NeverPushed(st.visited, st.stack) - {v};
  }

  lemma PushTree(g: Graph, s: nat, st: Search, i: nat)
    requires Core(g, s, st) && TreeInv(g, s, st) && TopVisited(st)
    requires i < |g.adj[st.stack[|st.stack| - 1]]| && !st.visited[g.adj[st.stack[|st.stack| - 1]][i].to]
    ensures TreeInv(g, s, Push(g, st, i))
  {
    var u := st.stack[|st.stack| - 1];
    var v := g.adj[u][i].to;
    var next := Push(g, st, i);
    assert next.stack == st.stack + [v] && next.parent == st.parent[v := u];
    assert IsGraphEdge(g, u, v) by { assert g.adj[u][i] in g.adj[u]; }
  }

  lemma PushTrace(g: Graph, s: nat, st: Search, i: nat)
    requires Core(g, s, st) && TraceInv(g, s, st) && TopVisited(st)
    requires i < |g.adj[st.stack[|st.stack| - 1]]|
    ensures TraceInv(g, s, Push(g, st, i))
  {
  }

  lemma PushKeeps(g: Graph, s: nat, st: Search, i: nat)
    requires Invariant(g, s, st) && TopVisited(st)
    requires i < |g.adj[st.stack[|st.stack| - 1]]| && !st.visited[g.adj[st.stack[|st.stack| - 1]][i].to]
    ensures Invariant(g, s, Push(g, st, i))
    ensures Measure(Push(g, st, i)) < Measure(st)
  {
    PushCore(g, s, st, i);
    PushTree(g, s, st, i);
    PushTrace(g, s, st, i);
  }

  lemma PopCore(g: Graph, s: nat, st: Search)
    requires Core(g, s, st) && TopVisited(st)
    ensures Core(g, s, Pop(g, st))
    ensures Measure(Pop(g, st)) < Measure(st)
  {
    var next := Pop(g, st);
    assert next.stack == st.stack[..|st.stack| - 1];
    assert NeverPushed(next.visited, next.stack) == NeverPushed(st.visited, st.stack);
  }

  lemma PopTree(g: Graph, s: nat, st: Search)
    requires Core(g, s, st) && TreeInv(g, s, st) && TopVisited(st)
    requires var u := st.stack[|st.stack| - 1];
             forall j :: 0 <= j < |g.adj[u]| ==> st.visited[g.adj[u][j].to]
    ensures TreeInv(g, s, Pop(g, st))
  {
    var next := Pop(g, st);
    assert next.stack == st.stack[..|st.stack| - 1];
    assert st.stack[|st.stack| - 1] !in next.stack;
  }

  lemma PopTrace(g: Graph, s: nat, st: Search)
    requires Core(g, s, st) && TraceInv(g, s, st) && TopVisited(st)
    ensures TraceInv(g, s, Pop(g, st))
  {
    if |st.stack| == 1 {
      PopLast(g, s, st);
    } else {
      PopInner(g, s, st);
    }
  }

  /** Popping the last entry records nothing. */
  lemma PopLast(g: Graph, s: nat, st: Search)
    requires Core(g, s, st) && TraceInv(g, s, st) && TopVisited(st) && |st.stack| == 1
    ensures TraceInv(g, s, Pop(g, st))
  {
    assert Backtrack(g, st.visited, st.edges, st.steps, st.stack[..0]) == st.steps;
  }

  /** Popping an inner entry records a backtracking snapshot of the new top. */
  lemma PopInner(g: Graph, s: nat, st: Search)
    requires Core(g, s, st) && TraceInv(g, s, st) && TopVisited(st) && |st.stack| > 1
    ensures TraceInv(g, s, Pop(g, st))
  {
    var stack := st.stack[..|st.stack| - 1];
    var nodes := st.steps[|st.steps| - 1].visitedNodes;
    var top := st.stack[|st.stack| - 2];
    assert stack[|stack| - 1] == top;
    var snap := Snapshot(g, st.visited, nodes, top, st.edges);
    SnapshotShows(g, st.visited, top, st.edges);
    TraceAppend(g, s, st.steps, st.visited, st.edges, st.visited, st.edges, snap);
    assert Pop(g, st).steps == st.steps + [snap];
  }

  lemma PopKeeps(g: Graph, s: nat, st: Search)
    requires Invariant(g, s, st) && TopVisited(st)
    requires var u := st.stack[|st.stack| - 1];
             forall j :: 0 <= j < |g.adj[u]| ==> st.visited[g.adj[u][j].to]
    ensures Invariant(g, s, Pop(g, st))
    ensures Measure(Pop(g, st)) < Measure(st)
  {
    PopCore(g, s, st);
    PopTree(g, s, st);
    PopTrace(g, s, st);
  }

  /** The first half of an iteration: visit the top of the stack if it is new. */
  method VisitIfNew(g: Graph, ghost s: nat, st: Search) returns (next: Search)
    requires Invariant(g, s, st) && |st.stack| > 0
    ensures Invariant(g, s, next) && TopVisited(next)
    ensures Measure(next) == Measure(st)
  {
    if st.visited[st.stack[|st.stack| - 1]] {
      next := st;
    } else {
      VisitKeeps(g, s, st);
      next := VisitTop(g, st);
    }
  }

  /** The second half: descend into the first unvisited neighbour of the top, or backtrack when
      it has none. */
  method Explore(g: Graph, ghost s: nat, st: Search) returns (next: Search)
    requires Invariant(g, s, st) && TopVisited(st)
    ensures Invariant(g, s, next)
    ensures Measure(next) < Measure(st)
  {
    var r := FirstUnvisited(g.adj[st.stack[|st.stack| - 1]], st.visited, 0);
    if r.Some? {
      PushKeeps(g, s, st, r.value);
      next := Push(g, st, r.value);
    } else {
      PopKeeps(g, s, st);
      next := Pop(g, st);
    }
  }

  /** With the stack empty every visited node is fully explored, so the visited set is closed under
      adjacency and holds every node reachable from the root. */
  lemma FinishReach(g: Graph, s: nat, st: Search)
    requires Core(g, s, st) && TreeInv(g, s, st) && st.stack == []
    ensures st.visited[s]
    ensures forall v: int :: v in VisitedList(st.visited) <==> 0 <= v < |g.adj| && Reachable(g, s, v)
  {
    var nodes := VisitedList(st.visited);
    VisitedListSpec(st.visited);
    assert ClosedFrom(g, s, VisitedSet(st.visited));
    forall v: int | 0 <= v < |g.adj| && Reachable(g, s, v) ensures v in nodes {
      ClosedHoldsReachable(g, s, VisitedSet(st.visited), v);
    }
  }

  /** The tree has one edge fewer than the visited list has nodes. */
  lemma FinishShape(g: Graph, s: nat, st: Search)
    requires Core(g, s, st) && TreeInv(g, s, st) && st.visited[s]
    ensures TreeNodes(s, st.edges) == Elements(VisitedList(st.visited))
    ensures |st.edges| == |VisitedList(st.visited)| - 1
  {
    var nodes := VisitedList(st.visited);
    VisitedListSpec(st.visited);
    assert Elements(nodes) == VisitedSet(st.visited);
    TreeSize(s, st.edges);
    DistinctSize(nodes);
  }

  /** The trace with the terminal snapshot appended. */
  function Close(st: Search): seq<Step> {
    st.steps + [Step(VisitedList(st.visited), None, st.edges, [])]
  }

  /** The terminal snapshot completes a trace with every promised property. */
  lemma FinishKeeps(g: Graph, s: nat, st: Search)
    requires Invariant(g, s, st) && st.stack == []
    ensures |Close(st)| >= 2
    ensures Close(st)[0] == InitialStep(g, s)
    ensures FinalStep(g, s, Close(st)[|Close(st)| - 1])
    ensures forall k :: 0 < k < |Close(st)| - 1 ==> ShowsFrontier(g, Close(st)[k])
    ensures forall i, j :: 0 <= i <= j < |Close(st)| ==> Close(st)[i].edgesInPath <= Close(st)[j].edgesInPath
  {
    FinishReach(g, s, st);
    FinishShape(g, s, st);
    VisitedListSpec(st.visited);
    var steps := Close(st);
    assert steps[..|st.steps|] == st.steps;
  }

  /** The traversal loop from a known start node. */
  method Traverse(g: Graph, s: nat) returns (steps: seq<Step>)
    requires Valid(g) && s < |g.adj|
    ensures |steps| >= 2
    ensures steps[0] == InitialStep(g, s)
    ensures FinalStep(g, s, steps[|steps| - 1])
    ensures forall k :: 0 < k < |steps| - 1 ==> ShowsFrontier(g, steps[k])
    ensures forall i, j :: 0 <= i <= j < |steps| ==> steps[i].edgesInPath <= steps[j].edgesInPath
  {
    var st := Start(g, s);
    StartKeeps(g, s);
    while |st.stack| > 0
      invariant Invariant(g, s, st)
      decreases Measure(st)
    {
      st := VisitIfNew(g, s, st);
      st := Explore(g, s, st);
    }
    FinishKeeps(g, s, st);
    steps := Close(st);
  }
}
