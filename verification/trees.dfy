/** Trees given in attachment order, and the counting facts about them. */
module Trees {

  /** The second components of the pairs. */
  function Children(edges: seq<(nat, nat)>): set<nat> {
    set i | 0 <= i < |edges| :: edges[i].1
  }

  /** The root and every node some edge hangs below it. */
  function TreeNodes(root: nat, edges: seq<(nat, nat)>): set<nat> {
    {root} + Children(edges)
  }

  /** Each `(parent, child)` pair hangs a new child below a node that is already in the tree: the
      edges form a tree rooted at `root`, listed in the order the nodes were attached. */
  ghost predicate IsTreeFrom(root: nat, edges: seq<(nat, nat)>)
    decreases |edges|
  {
    if |edges| == 0 then true
    else
      var prefix, last := edges[..|edges| - 1], edges[|edges| - 1];
      && IsTreeFrom(root, prefix)
      && last.0 in TreeNodes(root, prefix)
      && last.1 !in TreeNodes(root, prefix)
  }

  lemma ChildrenAppend(edges: seq<(nat, nat)>, e: (nat, nat))
    ensures Children(edges + [e]) == Children(edges) + {e.1}
  {
    var all := edges + [e];
    forall x | x in Children(all) ensures x in Children(edges) + {e.1} {
      var i :| 0 <= i < |all| && all[i].1 == x;
      if i < |edges| {
        assert edges[i].1 == x;
      }
    }
    forall x | x in Children(edges) ensures x in Children(all) {
      var i :| 0 <= i < |edges| && edges[i].1 == x;
      assert all[i].1 == x;
    }
    assert all[|edges|].1 == e.1;
  }

  /** Attaching a new child below a tree node gives a tree with one node more. */
  lemma Attach(root: nat, edges: seq<(nat, nat)>, e: (nat, nat))
    requires IsTreeFrom(root, edges) && e.0 in TreeNodes(root, edges) && e.1 !in TreeNodes(root, edges)
    ensures IsTreeFrom(root, edges + [e])
    ensures TreeNodes(root, edges + [e]) == TreeNodes(root, edges) + {e.1}
  {
    assert (edges + [e])[..|edges|] == edges;
    ChildrenAppend(edges, e);
  }

  /** A tree with `k` edges has `k + 1` nodes: no child is the root or attached twice. */
  lemma {:induction false} TreeSize(root: nat, edges: seq<(nat, nat)>)
    requires IsTreeFrom(root, edges)
    ensures |TreeNodes(root, edges)| == |edges| + 1
    decreases |edges|
  {
    if |edges| > 0 {
      var prefix, last := edges[..|edges| - 1], edges[|edges| - 1];
      TreeSize(root, prefix);
      assert edges == prefix + [last];
      Attach(root, prefix, last);
    }
  }

  /** Every parent an attachment-order tree names is one of its nodes. */
  lemma {:induction false} ParentsInTree(root: nat, edges: seq<(nat, nat)>)
    requires IsTreeFrom(root, edges)
    ensures forall k :: 0 <= k < |edges| ==> edges[k].0 in TreeNodes(root, edges)
    decreases |edges|
  {
    if |edges| > 0 {
      var prefix, last := edges[..|edges| - 1], edges[|edges| - 1];
      ParentsInTree(root, prefix);
      assert edges == prefix + [last];
      Attach(root, prefix, last);
      forall k | 0 <= k < |edges| ensures edges[k].0 in TreeNodes(root, edges) {
        if k < |prefix| {
          assert edges[k] == prefix[k] && prefix[k].0 in TreeNodes(root, prefix);
        } else {
          assert edges[k] == last;
        }
      }
    }
  }

  /** The root is never attached below another node. */
  lemma {:induction false} RootNotChild(root: nat, edges: seq<(nat, nat)>)
    requires IsTreeFrom(root, edges)
    ensures root !in Children(edges)
    decreases |edges|
  {
    if |edges| > 0 {
      var prefix, last := edges[..|edges| - 1], edges[|edges| - 1];
      RootNotChild(root, prefix);
      Attach(root, prefix, last);
      assert edges == prefix + [last];
    }
  }

  /** The nodes `0 .. n-1`. */
  function Range(n: nat): (r: set<nat>)
    ensures forall x: int :: x in r <==> 0 <= x < n
    ensures |r| == n
  {
    if n == 0 then {} else Range(n - 1) + {n - 1}
  }

  /** A set of nodes below `n` with `n` elements is all of them. */
  lemma FullRange(nodes: set<nat>, n: nat)
    requires forall x :: x in nodes ==> x < n
    requires |nodes| == n
    ensures nodes == Range(n)
  {
    var missing := Range(n) - nodes;
    assert Range(n) == nodes + missing;
    assert |Range(n)| == |nodes| + |missing|;
  }

  /** A set of nodes below `n` has at most `n` elements. */
  lemma BelowSize(nodes: set<nat>, n: nat)
    requires forall x :: x in nodes ==> x < n
    ensures |nodes| <= n
  {
    var missing := Range(n) - nodes;
    assert Range(n) == nodes + missing;
    assert |Range(n)| == |nodes| + |missing|;
  }

  /** The distinct elements of a sequence without repeats are as many as its length. */
  lemma {:induction false} DistinctSize<T>(s: seq<T>)
    requires forall i, j :: 0 <= i < j < |s| ==> s[i] != s[j]
    ensures |Elements(s)| == |s|
  {
    if |s| > 0 {
      var prefix := s[..|s| - 1];
      DistinctSize(prefix);
      assert Elements(s) == Elements(prefix) + {s[|s| - 1]};
    }
  }

  /** The set of elements of a sequence. */
  function Elements<T>(s: seq<T>): set<T> {
    set x | x in s
  }
}
