/** The fixed ten-city graph built by `create_city_graph`, as a concrete instance of the model. */
module CityGraph {

  import opened Graphs

  /** City names; the `i`-th name is node `i`. */
  const Cities: seq<string> := [
    "Beijing", "Shenyang", "Qingdao", "Xian", "Zhengzhou",
    "Wuhan", "Chengdu", "Chongqing", "Changsanjiao", "Zhusanjiao"]

  /** The undirected roads by city name, in insertion order. */
  const Roads: seq<(string, string, Weight)> := [
    ("Beijing", "Shenyang", 750),
    ("Shenyang", "Qingdao", 680),
    ("Beijing", "Qingdao", 800),
    ("Beijing", "Xian", 1140),
    ("Beijing", "Zhengzhou", 650),
    ("Xian", "Zhengzhou", 570),
    ("Zhengzhou", "Qingdao", 820),
    ("Zhengzhou", "Wuhan", 530),
    ("Xian", "Chengdu", 840),
    ("Chengdu", "Chongqing", 340),
    ("Chongqing", "Wuhan", 900),
    ("Zhengzhou", "Changsanjiao", 1200),
    ("Qingdao", "Changsanjiao", 960),
    ("Wuhan", "Changsanjiao", 680),
    ("Zhusanjiao", "Chongqing", 2500),
    ("Zhusanjiao", "Wuhan", 1380),
    ("Zhusanjiao", "Changsanjiao", 2600)]

  /** The same roads with both names replaced by node indices. */
  const RoadIndices: seq<(nat, nat, Weight)> := [
    (0, 1, 750), (1, 2, 680), (0, 2, 800), (0, 3, 1140), (0, 4, 650), (3, 4, 570),
    (4, 2, 820), (4, 5, 530), (3, 6, 840), (6, 7, 340), (7, 5, 900), (4, 8, 1200),
    (2, 8, 960), (5, 8, 680), (9, 7, 2500), (9, 5, 1380), (9, 8, 2600)]

  /** `city_to_idx`: what the enumerate-and-insert loop leaves in the map. */
  function CityToIdx(): map<string, nat> {
    map i | 0 <= i < |Cities| :: Cities[i] := i
  }

  /** Both names of every road are keys of `m`: the lookups' `unwrap` cannot fail. */
  ghost predicate Named(m: map<string, nat>, roads: seq<(string, string, Weight)>) {
    forall k :: 0 <= k < |roads| ==> roads[k].0 in m && roads[k].1 in m
  }

  /** The roads with both names looked up in `m`. */
  function Lookup(m: map<string, nat>, roads: seq<(string, string, Weight)>): seq<(nat, nat, Weight)>
    requires Named(m, roads)
  {
    seq(|roads|, k requires 0 <= k < |roads| => (m[roads[k].0], m[roads[k].1], roads[k].2))
  }

  /** Every road joins two nodes of a graph with `n` nodes. */
  ghost predicate InRange(roads: seq<(nat, nat, Weight)>, n: nat) {
    forall k :: 0 <= k < |roads| ==> roads[k].0 < n && roads[k].1 < n
  }

  /** The insertion loop: each road is added with `add_edge`, in order. Each node's list ends
      up as its initial list followed by the entries the roads add to it. */
  function AddRoads(g: Graph, roads: seq<(nat, nat, Weight)>): (g': Graph)
    requires InRange(roads, |g.adj|)
    ensures g'.nodeCount == g.nodeCount && |g'.adj| == |g.adj|
    ensures forall x :: 0 <= x < |g.adj| ==> g'.adj[x] == g.adj[x] + Entries(x, roads)
  {
    if |roads| == 0 then g
    else
      var r := roads[|roads| - 1];
      var h := AddRoads(g, roads[..|roads| - 1]);
      AddEdgeContrib(h, r);
      AddEdge(h, r.0, r.1, r.2)
  }

  /** One insertion appends to each list exactly the entries that road contributes to it. */
  lemma AddEdgeContrib(h: Graph, r: (nat, nat, Weight))
    requires r.0 < |h.adj| && r.1 < |h.adj|
    ensures forall x :: 0 <= x < |h.adj| ==> AddEdge(h, r.0, r.1, r.2).adj[x] == h.adj[x] + Contrib(x, r)
  {
  }

  /** The entries one road adds to node `x`'s list: first `u`'s entry, then `v`'s. */
  function Contrib(x: nat, r: (nat, nat, Weight)): seq<Edge> {
    (if x == r.0 then [Edge(r.1, r.2)] else []) + (if x == r.1 then [Edge(r.0, r.2)] else [])
  }

  /** The entries the roads contribute to node `x`'s list, in insertion order. */
  function Entries(x: nat, roads: seq<(nat, nat, Weight)>): seq<Edge> {
    if |roads| == 0 then [] else Entries(x, roads[..|roads| - 1]) + Contrib(x, roads[|roads| - 1])
  }

  /** `create_city_graph`: the graph, the name-to-index map and the index-to-name list. */
  function CreateCityGraph(): (Graph, map<string, nat>, seq<string>) {
    RoadsResolve();
    (AddRoads(New(|Cities|), Lookup(CityToIdx(), Roads)), CityToIdx(), Cities)
  }

  lemma CitiesDistinct()
    ensures forall i, j :: 0 <= i < j < |Cities| ==> Cities[i] != Cities[j]
  {
  }

  /** The map sends each city to its position in the list. */
  lemma CityIndices()
    ensures forall i :: 0 <= i < |Cities| ==> Cities[i] in CityToIdx() && CityToIdx()[Cities[i]] == i
  {
    var m := CityToIdx();
    CitiesDistinct();
    forall i | 0 <= i < |Cities|
      ensures Cities[i] in m && m[Cities[i]] == i
    {
      assert Cities[i] in m;
    }
  }

  /** The road table, written with the city list's entries. */
  lemma RoadsByPosition()
    ensures Roads == [
      (Cities[0], Cities[1], 750), (Cities[1], Cities[2], 680), (Cities[0], Cities[2], 800),
      (Cities[0], Cities[3], 1140), (Cities[0], Cities[4], 650), (Cities[3], Cities[4], 570),
      (Cities[4], Cities[2], 820), (Cities[4], Cities[5], 530), (Cities[3], Cities[6], 840),
      (Cities[6], Cities[7], 340), (Cities[7], Cities[5], 900), (Cities[4], Cities[8], 1200),
      (Cities[2], Cities[8], 960), (Cities[5], Cities[8], 680), (Cities[9], Cities[7], 2500),
      (Cities[9], Cities[5], 1380), (Cities[9], Cities[8], 2600)]
  {
  }

  lemma RoadsNamed()
    ensures Named(CityToIdx(), Roads)
  {
    CityIndices();
    RoadsByPosition();
  }

  /** Looking the road names up gives the index table, so every lookup succeeds. */
  lemma RoadsResolve()
    ensures Named(CityToIdx(), Roads)
    ensures Lookup(CityToIdx(), Roads) == RoadIndices
    ensures InRange(RoadIndices, |Cities|)
  {
    RoadsNamed();
    CityIndices();
    RoadsByPosition();
    var l := Lookup(CityToIdx(), Roads);
    forall k | 0 <= k < |Roads| ensures l[k] == RoadIndices[k] {
    }
  }

  /** The fixture has ten nodes and the two name tables are mutual inverses. */
  lemma CityNames()
    ensures var (g, m, names) := CreateCityGraph();
      && g.nodeCount == 10 && |g.adj| == 10 && |names| == 10
      && (forall i :: 0 <= i < |names| ==> names[i] in m && m[names[i]] == i)
      && (forall c :: c in m ==> m[c] < |names| && names[m[c]] == c)
  {
    CityIndices();
  }

  /** Inserting roads keeps the table valid and undirected, and adds two entries per road. */
  lemma {:induction false} AddRoadsInvariants(g: Graph, roads: seq<(nat, nat, Weight)>)
    requires Valid(g) && Symmetric(g) && InRange(roads, |g.adj|)
    ensures Valid(AddRoads(g, roads)) && Symmetric(AddRoads(g, roads))
    ensures Size(AddRoads(g, roads)) == Size(g) + 2 * |roads|
  {
    if |roads| > 0 {
      var prefix, r := roads[..|roads| - 1], roads[|roads| - 1];
      AddRoadsInvariants(g, prefix);
      var h := AddRoads(g, prefix);
      AddEdgeKeepsValid(h, r.0, r.1, r.2);
      AddEdgeKeepsSymmetric(h, r.0, r.1, r.2);
      AddEdgeAddsTwoEntries(h, r.0, r.1, r.2);
    }
  }

  /** The fixture is a valid undirected graph whose 17 roads give 34 adjacency entries. */
  lemma CityGraphShape()
    ensures var g := CreateCityGraph().0;
      Valid(g) && Symmetric(g) && Size(g) == 34
  {
    RoadsResolve();
    AddRoadsInvariants(New(10), RoadIndices);
  }

  /** The entries of the first `k + 1` roads: those of the first `k`, then road `k`'s. */
  lemma EntriesPrefix(x: nat, roads: seq<(nat, nat, Weight)>, k: nat)
    requires k < |roads|
    ensures Entries(x, roads[..k + 1]) == Entries(x, roads[..k]) + Contrib(x, roads[k])
  {
    assert roads[..k + 1][..k] == roads[..k];
  }

  /** Beijing (node 0) is an endpoint of the first, third, fourth and fifth roads only. */
  lemma BeijingEntries()
    ensures Entries(0, RoadIndices) == [Edge(1, 750), Edge(2, 800), Edge(3, 1140), Edge(4, 650)]
  {
    var r := RoadIndices;
    var k := 5;
    assert r[..0] == [];
    EntriesPrefix(0, r, 0);
    EntriesPrefix(0, r, 1);
    EntriesPrefix(0, r, 2);
    EntriesPrefix(0, r, 3);
    EntriesPrefix(0, r, 4);
    assert Entries(0, r[..k]) == [Edge(1, 750), Edge(2, 800), Edge(3, 1140), Edge(4, 650)];
    while k < |r|
      invariant 5 <= k <= |r|
      invariant Entries(0, r[..k]) == Entries(0, r[..5])
    {
      EntriesPrefix(0, r, k);
      k := k + 1;
    }
    assert r[..|r|] == r;
  }

  /** Beijing's list is the one documented next to the `Graph` declaration. */
  lemma BeijingNeighbours()
    ensures CreateCityGraph().0.adj[0] == [Edge(1, 750), Edge(2, 800), Edge(3, 1140), Edge(4, 650)]
  {
    RoadsResolve();
    BeijingEntries();
  }
}
