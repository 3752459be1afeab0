/**
 * The constant tables of the earlier, root-level engine (config.py): the
 * simulation limits, the recipe dictionary, the six-node station layout and
 * the weighted edges. The all-pairs distance table that the graph library
 * derives from them is an input; `Navigation.ShortestTable` says what it is.
 */
module LegacyConfig {
  import opened Wrappers
  import Navigation

  const MaxSteps := 1000
  const MaxInventory := 2
  const MaxOrders := 3
  const OrderTtl := 60

  /** Station type codes. */
  const StNone := 0
  const StSource := 1
  const StProcess := 2
  const StDelivery := 3

  /** Item type codes. */
  const INone := 0
  const IPotatoRaw := 1
  const IPotatoCooked := 2
  const ITomatoRaw := 3
  const ITomatoSliced := 4

  /** A recipe's product and processing time. */
  datatype RecipeOut = RecipeOut(output: int, time: int)

  /** `RECIPES`: (ingredient, station name) to (product, duration). */
  const Recipes: map<(int, string), RecipeOut> :=
    map[(IPotatoRaw, "Stove") := RecipeOut(IPotatoCooked, 15),
        (ITomatoRaw, "CutBoard") := RecipeOut(ITomatoSliced, 8)]

  /** One entry of `NODE_CONFIG`: its id, type code, name and optional dispensed item. */
  datatype NodeEntry = NodeEntry(id: int, stationType: int, name: string, item: Option<int>)

  /** `NODE_CONFIG` in its declaration (and so iteration) order. */
  const NodeTable: seq<NodeEntry> := [
    NodeEntry(0, StNone, "Floor", None),
    NodeEntry(1, StSource, "PotatoBin", Some(IPotatoRaw)),
    NodeEntry(2, StSource, "TomatoBin", Some(ITomatoRaw)),
    NodeEntry(3, StProcess, "Stove", None),
    NodeEntry(4, StProcess, "CutBoard", None),
    NodeEntry(5, StDelivery, "ServiceWindow", None)
  ]

  /** `EDGE_CONFIG`: undirected edges (u, v, seconds). */
  const EdgeTable: seq<Navigation.Edge> := [
    Navigation.Edge(0, 1, 2), Navigation.Edge(0, 2, 2),
    Navigation.Edge(0, 3, 5), Navigation.Edge(0, 4, 3),
    Navigation.Edge(3, 5, 2), Navigation.Edge(4, 5, 2),
    Navigation.Edge(1, 3, 4),
    Navigation.Edge(2, 4, 3)
  ]

  /** `len(NODE_CONFIG)`: move actions are 0 .. NumNodes - 1, and NumNodes is interact. */
  const NumNodes := |NodeTable|

  function NodeIds(): (ids: seq<int>)
    ensures |ids| == |NodeTable|
    ensures forall i :: 0 <= i < |ids| ==> ids[i] == NodeTable[i].id
  {
    seq(|NodeTable|, i requires 0 <= i < |NodeTable| => NodeTable[i].id)
  }

  /** `build_graph_data`: the graph over the configured nodes and edges, with the library's distance table. */
  function LegacyGraph(dist: map<int, map<int, int>>): (g: Navigation.Graph)
    ensures g.edges == EdgeTable && g.dist == dist
  {
    Navigation.Graph(NodeIds(), EdgeTable, dist)
  }

  /** Node ids are exactly 0 .. N - 1, so move action n names node n. */
  lemma NodeIdsAreIndices()
    ensures NumNodes == 6
    ensures forall i :: 0 <= i < |NodeTable| ==> NodeTable[i].id == i
  {
  }

  /** Every edge joins two configured nodes and takes a positive time. */
  lemma EdgesWellFormed()
    ensures forall i :: 0 <= i < |EdgeTable| ==>
      && 0 <= EdgeTable[i].u < NumNodes
      && 0 <= EdgeTable[i].v < NumNodes
      && EdgeTable[i].weight > 0
  {
  }

  /**
   * Each recipe's station is the name of a process node, and each recipe's
   * ingredient is what some source node dispenses.
   */
  lemma RecipesWellFormed()
    ensures forall k :: k in Recipes ==>
      exists i :: 0 <= i < |NodeTable| && NodeTable[i].stationType == StProcess && NodeTable[i].name == k.1
    ensures forall k :: k in Recipes ==>
      exists i :: 0 <= i < |NodeTable| && NodeTable[i].stationType == StSource && NodeTable[i].item == Some(k.0)
  {
    forall k | k in Recipes
      ensures exists i :: 0 <= i < |NodeTable| && NodeTable[i].stationType == StProcess && NodeTable[i].name == k.1
      ensures exists i :: 0 <= i < |NodeTable| && NodeTable[i].stationType == StSource && NodeTable[i].item == Some(k.0)
    {
      if k == (IPotatoRaw, "Stove") {
        assert NodeTable[3].name == k.1 && NodeTable[1].item == Some(k.0);
      } else {
        assert NodeTable[4].name == k.1 && NodeTable[2].item == Some(k.0);
      }
    }
  }

  /** The recipe products are exactly the two dishes that orders ask for. */
  lemma RecipeOutputsAreOrderTypes()
    ensures (set k | k in Recipes :: Recipes[k].output) == {IPotatoCooked, ITomatoSliced}
  {
    var outs := set k | k in Recipes :: Recipes[k].output;
    assert Recipes[(IPotatoRaw, "Stove")].output == IPotatoCooked;
    assert Recipes[(ITomatoRaw, "CutBoard")].output == ITomatoSliced;
    assert IPotatoCooked in outs && ITomatoSliced in outs;
  }

  /** The graph's node set is 0 .. 5: the configured ids, the edge endpoints adding nothing. */
  lemma GraphNodes(dist: map<int, map<int, int>>)
    ensures forall n :: n in Navigation.Nodes(LegacyGraph(dist)) <==> 0 <= n < NumNodes
  {
    var g := LegacyGraph(dist);
    forall n | 0 <= n < NumNodes ensures n in Navigation.Nodes(g) {
      assert g.nodeIds[n] == n;
    }
    forall n | n in Navigation.Nodes(g) ensures 0 <= n < NumNodes {
      NodeInRange(dist, n);
    }
  }

  lemma NodeInRange(dist: map<int, map<int, int>>, n: int)
    requires n in Navigation.Nodes(LegacyGraph(dist))
    ensures 0 <= n < NumNodes
  {
    var g := LegacyGraph(dist);
    EdgesWellFormed();
    if n in (set i | 0 <= i < |g.nodeIds| :: g.nodeIds[i]) {
      var i :| 0 <= i < |g.nodeIds| && g.nodeIds[i] == n;
    } else if n in (set i | 0 <= i < |g.edges| :: g.edges[i].u) {
      var i :| 0 <= i < |g.edges| && g.edges[i].u == n;
    } else {
      var i :| 0 <= i < |g.edges| && g.edges[i].v == n;
    }
  }

  /** A walk from the floor (node 0) to each node. */
  lemma WalkFromFloor(dist: map<int, map<int, int>>, n: int) returns (p: seq<int>)
    requires 0 <= n < NumNodes
    ensures Navigation.WalkBetween(LegacyGraph(dist), p, 0, n)
  {
    var g := LegacyGraph(dist);
    GraphNodes(dist);
    if n == 0 {
      p := [0];
    } else if n == 5 {
      assert Navigation.Connects(EdgeTable[2], 0, 3);
      assert Navigation.Connects(EdgeTable[4], 3, 5);
      p := [0, 3, 5];
    } else {
      assert Navigation.Connects(EdgeTable[n - 1], 0, n);
      p := [0, n];
    }
  }

  /**
   * Every node can reach every node, so the library's distance table has
   * an entry for every pair and the default distance of 10 that the legacy
   * world falls back on is never used.
   */
  lemma {:induction false} AllReachable(dist: map<int, map<int, int>>, u: int, v: int)
    requires 0 <= u < NumNodes && 0 <= v < NumNodes
    ensures Navigation.Reachable(LegacyGraph(dist), u, v)
  {
    var g := LegacyGraph(dist);
    var toU := WalkFromFloor(dist, u);
    var toV := WalkFromFloor(dist, v);
    Navigation.ReverseWalk(g, toU);
    var back := Navigation.Reverse(toU);
    Navigation.ConcatWalk(g, back, toV);
    assert Navigation.WalkBetween(g, back + toV[1..], u, v);
  }

  /** With the library's shortest-distance table, every row has every configured node. */
  lemma DistanceTableComplete(dist: map<int, map<int, int>>, u: int, v: int)
    requires Navigation.ShortestTable(LegacyGraph(dist))
    requires 0 <= u < NumNodes && 0 <= v < NumNodes
    ensures u in dist && v in dist[u]
  {
    GraphNodes(dist);
    AllReachable(dist, u, v);
  }
}
