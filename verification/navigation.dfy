/**
 * The undirected weighted station graph (src/kitchen_rl/core/navigation.py):
 * adjacency, move cost, and the all-pairs shortest-distance table that the
 * graph library computes once at construction. The table is an input of the
 * model; `ShortestTable` states what the library guarantees about it.
 */
module Navigation {
  import opened Wrappers

  /** One configured edge `(u, v, w)`. */
  datatype Edge = Edge(u: int, v: int, weight: int)

  /**
   * The graph: configured node ids, configured edges in order, and the
   * distance table `dist[u][v]` (a missing `v` means unreachable).
   */
  datatype Graph = Graph(nodeIds: seq<int>, edges: seq<Edge>, dist: map<int, map<int, int>>)

  /** Penalty cost of a move between distinct, non-adjacent nodes. */
  const NotAdjacentCost := 100
  /** Distance reported when the target cannot be reached. */
  const UnreachableDistance := 999

  predicate Connects(e: Edge, a: int, b: int) {
    (e.u == a && e.v == b) || (e.u == b && e.v == a)
  }

  /**
   * The weight stored for the undirected edge {a, b}: adding an edge that
   * already exists overwrites its weight, so the last configured one wins.
   */
  function EdgeWeight(edges: seq<Edge>, a: int, b: int): (w: Option<int>)
    ensures w.Some? <==> exists i :: 0 <= i < |edges| && Connects(edges[i], a, b)
    ensures w.Some? ==> exists i :: 0 <= i < |edges| && Connects(edges[i], a, b) && edges[i].weight == w.value
  {
    if |edges| == 0 then None
    else if Connects(edges[|edges| - 1], a, b) then Some(edges[|edges| - 1].weight)
    else
      var w := EdgeWeight(edges[..|edges| - 1], a, b);
      assert forall i :: 0 <= i < |edges| - 1 ==> edges[..|edges| - 1][i] == edges[i];
      w
  }

  lemma {:induction false} EdgeWeightSymmetric(edges: seq<Edge>, a: int, b: int)
    ensures EdgeWeight(edges, a, b) == EdgeWeight(edges, b, a)
    decreases |edges|
  {
    if |edges| > 0 {
      EdgeWeightSymmetric(edges[..|edges| - 1], a, b);
    }
  }

  /** Every node of the graph: the configured ones plus edge endpoints, which the library adds implicitly. */
  function Nodes(g: Graph): (ns: set<int>)
    ensures forall i :: 0 <= i < |g.nodeIds| ==> g.nodeIds[i] in ns
    ensures forall i :: 0 <= i < |g.edges| ==> g.edges[i].u in ns && g.edges[i].v in ns
  {
    (set i | 0 <= i < |g.nodeIds| :: g.nodeIds[i])
      + (set i | 0 <= i < |g.edges| :: g.edges[i].u)
      + (set i | 0 <= i < |g.edges| :: g.edges[i].v)
  }

  predicate Adjacent(g: Graph, a: int, b: int) {
    EdgeWeight(g.edges, a, b).Some?
  }

  /** `get_neighbors(u)`; the library raises for a node it does not know. */
  function Neighbors(g: Graph, u: int): (r: Result<set<int>>)
    ensures r.Success? <==> u in Nodes(g)
    ensures r.Success? ==> forall v :: v in r.value <==> Adjacent(g, u, v)
  {
    if u !in Nodes(g) then Failure("NetworkXError: node not in graph")
    else
      var ns := set v | v in Nodes(g) && Adjacent(g, u, v);
      assert forall v :: Adjacent(g, u, v) ==> v in Nodes(g) by {
        forall v | Adjacent(g, u, v) ensures v in Nodes(g) {
          var i :| 0 <= i < |g.edges| && Connects(g.edges[i], u, v);
        }
      }
      Success(ns)
  }

  /** v is a neighbour of u iff u is a neighbour of v iff an edge between them was configured. */
  lemma NeighborsSymmetric(g: Graph, u: int, v: int)
    requires u in Nodes(g) && v in Nodes(g)
    ensures v in Neighbors(g, u).value <==> u in Neighbors(g, v).value
    ensures v in Neighbors(g, u).value <==> exists i :: 0 <= i < |g.edges| && Connects(g.edges[i], u, v)
  {
    EdgeWeightSymmetric(g.edges, u, v);
  }

  /** `move_cost(u, v)`: 1 to stay, the edge weight to a neighbour, otherwise the penalty. */
  function MoveCost(g: Graph, u: int, v: int): (c: int)
    ensures u == v ==> c == 1
    ensures u != v && Adjacent(g, u, v) ==> c == EdgeWeight(g.edges, u, v).value
    ensures u != v && !Adjacent(g, u, v) ==> c == NotAdjacentCost
  {
    if u == v then 1
    else match EdgeWeight(g.edges, u, v)
      case Some(w) => w
      case None => NotAdjacentCost
  }

  /** `get_distance(u, v)`: the table entry, or 999 when v is unreachable; the table has no row for a non-node. */
  function GetDistance(g: Graph, u: int, v: int): (r: Result<int>)
    ensures r.Success? <==> u in g.dist
    ensures r.Success? && v !in g.dist[u] ==> r.value == UnreachableDistance
    ensures r.Success? && v in g.dist[u] ==> r.value == g.dist[u][v]
  {
    if u !in g.dist then Failure("KeyError")
    else if v in g.dist[u] then Success(g.dist[u][v])
    else Success(UnreachableDistance)
  }

  // ---- Walks and the shortest-distance guarantee -------------------------

  /** A walk: a non-empty node sequence whose consecutive nodes are adjacent. */
  ghost predicate IsWalk(g: Graph, p: seq<int>) {
    && |p| >= 1
    && p[0] in Nodes(g)
    && forall i :: 0 <= i < |p| - 1 ==> Adjacent(g, p[i], p[i + 1])
  }

  ghost predicate WalkBetween(g: Graph, p: seq<int>, a: int, b: int) {
    IsWalk(g, p) && p[0] == a && p[|p| - 1] == b
  }

  /** Total weight of a walk's edges. */
  ghost function WalkCost(g: Graph, p: seq<int>): int
    decreases |p|
  {
    if |p| <= 1 then 0 else EdgeWeight(g.edges, p[0], p[1]).GetOr(0) + WalkCost(g, p[1..])
  }

  ghost predicate Reachable(g: Graph, a: int, b: int) {
    exists p :: WalkBetween(g, p, a, b)
  }

  ghost predicate NonNegativeWeights(g: Graph) {
    forall i :: 0 <= i < |g.edges| ==> g.edges[i].weight >= 0
  }

  /** d is the least cost of a walk from a to b, and some walk achieves it. */
  ghost predicate IsShortest(g: Graph, a: int, b: int, d: int) {
    && (exists p :: WalkBetween(g, p, a, b) && WalkCost(g, p) == d)
    && (forall p :: WalkBetween(g, p, a, b) ==> WalkCost(g, p) >= d)
  }

  /**
   * What Dijkstra from every source guarantees of the table on a graph with
   * non-negative weights: one row per node, an entry exactly for the
   * reachable targets, and each entry the shortest walk cost.
   */
  ghost predicate ShortestTable(g: Graph) {
    && NonNegativeWeights(g)
    && (forall u :: u in g.dist <==> u in Nodes(g))
    && (forall u, v :: u in g.dist ==> (v in g.dist[u] <==> Reachable(g, u, v)))
    && (forall u, v :: u in g.dist && v in g.dist[u] ==> IsShortest(g, u, v, g.dist[u][v]))
  }

  lemma {:induction false} WalkCostNonNegative(g: Graph, p: seq<int>)
    requires NonNegativeWeights(g)
    ensures WalkCost(g, p) >= 0
    decreases |p|
  {
    if |p| > 1 {
      WalkCostNonNegative(g, p[1..]);
      var w := EdgeWeight(g.edges, p[0], p[1]);
      if w.Some? {
        var i :| 0 <= i < |g.edges| && Connects(g.edges[i], p[0], p[1]) && g.edges[i].weight == w.value;
      }
    }
  }

  lemma AdjacentEndpointsAreNodes(g: Graph, a: int, b: int)
    requires Adjacent(g, a, b)
    ensures a in Nodes(g) && b in Nodes(g)
  {
    var i :| 0 <= i < |g.edges| && Connects(g.edges[i], a, b);
  }

  /** Every node of a walk is a node of the graph. */
  lemma WalkNodes(g: Graph, p: seq<int>, k: int)
    requires IsWalk(g, p) && 0 <= k < |p|
    ensures p[k] in Nodes(g)
  {
    if k > 0 {
      AdjacentEndpointsAreNodes(g, p[k - 1], p[k]);
    }
  }

  /** Gluing a walk a..m to a walk m..b gives a walk a..b whose cost is the sum. */
  lemma {:induction false} ConcatWalk(g: Graph, p: seq<int>, q: seq<int>)
    requires IsWalk(g, p) && IsWalk(g, q) && p[|p| - 1] == q[0]
    ensures IsWalk(g, p + q[1..])
    ensures WalkCost(g, p + q[1..]) == WalkCost(g, p) + WalkCost(g, q)
    decreases |p|
  {
    ConcatIsWalk(g, p, q);
    ConcatCost(g, p, q);
  }

  lemma ConcatIsWalk(g: Graph, p: seq<int>, q: seq<int>)
    requires IsWalk(g, p) && IsWalk(g, q) && p[|p| - 1] == q[0]
    ensures IsWalk(g, p + q[1..])
  {
    var r := p + q[1..];
    forall i | 0 <= i < |r| - 1 ensures Adjacent(g, r[i], r[i + 1]) {
      if i < |p| - 1 {
        assert r[i] == p[i] && r[i + 1] == p[i + 1];
      } else {
        var k := i - (|p| - 1);
        assert r[i] == q[k] && r[i + 1] == q[k + 1];
      }
    }
  }

  lemma {:induction false} ConcatCost(g: Graph, p: seq<int>, q: seq<int>)
    requires |p| >= 1 && |q| >= 1 && p[|p| - 1] == q[0]
    ensures WalkCost(g, p + q[1..]) == WalkCost(g, p) + WalkCost(g, q)
    decreases |p|
  {
    if |p| == 1 {
      assert p + q[1..] == q;
    } else {
      ConcatCost(g, p[1..], q);
      var r := p + q[1..];
      assert r[0] == p[0] && r[1] == p[1];
      assert r[1..] == p[1..] + q[1..];
    }
  }

  function Reverse(p: seq<int>): (r: seq<int>)
    ensures |r| == |p|
    ensures forall i :: 0 <= i < |p| ==> r[i] == p[|p| - 1 - i]
  {
    if |p| == 0 then [] else Reverse(p[1..]) + [p[0]]
  }

  /** Walking backwards is a walk of the same cost, since edges are undirected. */
  lemma {:induction false} ReverseWalk(g: Graph, p: seq<int>)
    requires IsWalk(g, p)
    ensures IsWalk(g, Reverse(p))
    ensures WalkCost(g, Reverse(p)) == WalkCost(g, p)
    decreases |p|
  {
    if |p| > 1 {
      WalkNodes(g, p, 1);
      ReverseWalk(g, p[1..]);
      EdgeWeightSymmetric(g.edges, p[0], p[1]);
      var back := [p[1], p[0]];
      WalkNodes(g, p, 1);
      assert IsWalk(g, back);
      assert WalkCost(g, back) == EdgeWeight(g.edges, p[1], p[0]).GetOr(0) + WalkCost(g, back[1..]);
      ConcatWalk(g, Reverse(p[1..]), back);
      assert Reverse(p[1..]) + back[1..] == Reverse(p);
    }
  }

  /** The table entry for a reachable target is achieved by some walk. */
  lemma ShortestWitness(g: Graph, a: int, b: int) returns (p: seq<int>)
    requires ShortestTable(g) && a in g.dist && b in g.dist[a]
    ensures WalkBetween(g, p, a, b) && WalkCost(g, p) == g.dist[a][b]
  {
    assert IsShortest(g, a, b, g.dist[a][b]);
    p :| WalkBetween(g, p, a, b) && WalkCost(g, p) == g.dist[a][b];
  }

  /** Every walk bounds the table entry from above. */
  lemma ShortestBound(g: Graph, a: int, b: int, p: seq<int>)
    requires ShortestTable(g) && a in g.dist && WalkBetween(g, p, a, b)
    ensures b in g.dist[a] && g.dist[a][b] <= WalkCost(g, p)
  {
    assert Reachable(g, a, b);
    assert IsShortest(g, a, b, g.dist[a][b]);
  }

  /** The distance from a node to itself is 0. */
  lemma DistanceToSelf(g: Graph, u: int)
    requires ShortestTable(g) && u in Nodes(g)
    ensures GetDistance(g, u, u) == Success(0)
  {
    assert u in g.dist;
    SingletonWalk(g, u);
    ShortestBound(g, u, u, [u]);
    var q := ShortestWitness(g, u, u);
    WalkCostNonNegative(g, q);
    assert g.dist[u][u] == 0;
  }

  lemma SingletonWalk(g: Graph, u: int)
    requires u in Nodes(g)
    ensures WalkBetween(g, [u], u, u) && WalkCost(g, [u]) == 0
  {
  }

  lemma ReachableSymmetric(g: Graph, a: int, b: int)
    ensures Reachable(g, a, b) ==> Reachable(g, b, a)
  {
    if Reachable(g, a, b) {
      var p :| WalkBetween(g, p, a, b);
      ReverseWalk(g, p);
      assert WalkBetween(g, Reverse(p), b, a);
    }
  }

  /** Distances are symmetric: reachability and the least cost are the same both ways. */
  lemma DistanceSymmetric(g: Graph, u: int, v: int)
    requires ShortestTable(g) && u in Nodes(g) && v in Nodes(g)
    ensures GetDistance(g, u, v) == GetDistance(g, v, u)
  {
    ReachableSymmetric(g, u, v);
    ReachableSymmetric(g, v, u);
    assert u in g.dist && v in g.dist;
    assert v in g.dist[u] <==> u in g.dist[v];
    if v in g.dist[u] {
      var p := ShortestWitness(g, u, v);
      ReverseWalk(g, p);
      ShortestBound(g, v, u, Reverse(p));
      var q := ShortestWitness(g, v, u);
      ReverseWalk(g, q);
      ShortestBound(g, u, v, Reverse(q));
      assert g.dist[u][v] == g.dist[v][u];
    } else {
      assert GetDistance(g, u, v) == Success(UnreachableDistance);
    }
  }

  /** The triangle inequality, for a midpoint reachable from u with v reachable from it. */
  lemma DistanceTriangle(g: Graph, u: int, w: int, v: int)
    requires ShortestTable(g) && u in Nodes(g) && w in Nodes(g)
    requires w in g.dist[u] && v in g.dist[w]
    ensures GetDistance(g, u, v).value <= GetDistance(g, u, w).value + GetDistance(g, w, v).value
  {
    var p := ShortestWitness(g, u, w);
    var q := ShortestWitness(g, w, v);
    ConcatWalk(g, p, q);
    ShortestBound(g, u, v, p + q[1..]);
  }

  /** Distinct adjacent nodes are at most one move apart: distance <= move cost. */
  lemma DistanceAtMostMoveCost(g: Graph, u: int, v: int)
    requires ShortestTable(g) && u != v && Adjacent(g, u, v)
    ensures GetDistance(g, u, v).Success?
    ensures GetDistance(g, u, v).value <= MoveCost(g, u, v)
  {
    AdjacentEndpointsAreNodes(g, u, v);
    var p := [u, v];
    assert WalkBetween(g, p, u, v);
    assert WalkCost(g, p) == MoveCost(g, u, v);
  }

  /** A target that no walk reaches is reported at the sentinel distance. */
  lemma UnreachableIsSentinel(g: Graph, u: int, v: int)
    requires ShortestTable(g) && u in Nodes(g) && !Reachable(g, u, v)
    ensures GetDistance(g, u, v) == Success(UnreachableDistance)
  {
  }
}
