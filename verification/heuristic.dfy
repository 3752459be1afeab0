/**
 * The rule-based planner (src/kitchen_rl/agents/heuristic.py): a
 * priority-ordered choice of the next station to walk to, and the arrival
 * rule that turns reaching it into an interact action. The weighted
 * shortest path the planner asks the graph library for is an input.
 */
module Heuristic {
  import opened Wrappers
  import opened Entities
  import opened KitchenConfig
  import opened Interactions
  import opened Engine
  import opened ActionMask

  /** The node the planner treats as the delivery window. */
  const DeliveryWindow := 5

  /** A station whose item is finished and wanted by some order. */
  predicate Ready(stations: map<int, StationState>, orders: seq<Order>, id: int) {
    && id in stations
    && stations[id].heldItem.Some?
    && !stations[id].isBusy
    && OrderWants(stations[id].heldItem.value, orders)
  }

  /** Priority 2: the first id, in station-table order, of a ready station. */
  function ReadyStation(ids: seq<int>, stations: map<int, StationState>, orders: seq<Order>): (r: Option<int>)
    ensures r.Some? ==> exists k :: 0 <= k < |ids| && ids[k] == r.value && Ready(stations, orders, ids[k])
                          && forall k' :: 0 <= k' < k ==> !Ready(stations, orders, ids[k'])
    ensures r.None? ==> forall k :: 0 <= k < |ids| ==> !Ready(stations, orders, ids[k])
  {
    if |ids| == 0 then None
    else if Ready(stations, orders, ids[0]) then Some(ids[0])
    else
      var r := ReadyStation(ids[1..], stations, orders);
      assert forall k :: 1 <= k < |ids| ==> ids[1..][k - 1] == ids[k];
      r
  }

  /** The first configured node with the given display name. */
  function NodeNamed(nodes: seq<NodeSpec>, name: string): (r: Option<int>)
    ensures r.Some? ==> exists k :: 0 <= k < |nodes| && nodes[k].name == name && nodes[k].id == r.value
                          && forall k' :: 0 <= k' < k ==> nodes[k'].name != name
    ensures r.None? ==> forall k :: 0 <= k < |nodes| ==> nodes[k].name != name
  {
    if |nodes| == 0 then None
    else if nodes[0].name == name then Some(nodes[0].id)
    else
      var r := NodeNamed(nodes[1..], name);
      assert forall k :: 1 <= k < |nodes| ==> nodes[1..][k - 1] == nodes[k];
      r
  }

  /** A recipe for this item whose station names a configured node. */
  predicate Usable(item: Item, r: Recipe, nodes: seq<NodeSpec>) {
    r.input == item.typeId && NodeNamed(nodes, r.station).Some?
  }

  /** The station for the first usable recipe of one item. */
  function RecipeTarget(item: Item, recipes: seq<Recipe>, nodes: seq<NodeSpec>): (r: Option<int>)
    ensures r.Some? ==> exists j :: 0 <= j < |recipes| && Usable(item, recipes[j], nodes)
                          && r.value == NodeNamed(nodes, recipes[j].station).value
                          && forall j' :: 0 <= j' < j ==> !Usable(item, recipes[j'], nodes)
    ensures r.None? ==> forall j :: 0 <= j < |recipes| ==> !Usable(item, recipes[j], nodes)
  {
    if |recipes| == 0 then None
    else if recipes[0].input == item.typeId && NodeNamed(nodes, recipes[0].station).Some? then
      NodeNamed(nodes, recipes[0].station)
    else
      var r := RecipeTarget(item, recipes[1..], nodes);
      assert forall j :: 1 <= j < |recipes| ==> recipes[1..][j - 1] == recipes[j];
      r
  }

  /**
   * Priority 3: scanning inventory items, then recipes, then nodes, all in
   * order, the first station that can process something carried.
   */
  function ProcessTarget(inv: seq<Item>, recipes: seq<Recipe>, nodes: seq<NodeSpec>): (r: Option<int>)
    ensures r.Some? ==> exists i :: 0 <= i < |inv| && r == RecipeTarget(inv[i], recipes, nodes)
                          && forall i' :: 0 <= i' < i ==> RecipeTarget(inv[i'], recipes, nodes).None?
    ensures r.None? ==> forall i, j :: 0 <= i < |inv| && 0 <= j < |recipes| ==> !Usable(inv[i], recipes[j], nodes)
  {
    if |inv| == 0 then None
    else
      var first := RecipeTarget(inv[0], recipes, nodes);
      if first.Some? then
        assert 0 <= 0 < |inv| && first == RecipeTarget(inv[0], recipes, nodes);
        first
      else
        var r := ProcessTarget(inv[1..], recipes, nodes);
        ProcessTargetSkips(inv, recipes, nodes, r);
        r
  }

  /** What `ProcessTarget` promises of its result `r`. */
  ghost predicate ProcessTargetPost(inv: seq<Item>, recipes: seq<Recipe>, nodes: seq<NodeSpec>, r: Option<int>) {
    && (r.Some? ==> exists i :: 0 <= i < |inv| && r == RecipeTarget(inv[i], recipes, nodes)
                       && forall i' :: 0 <= i' < i ==> RecipeTarget(inv[i'], recipes, nodes).None?)
    && (r.None? ==> forall i, j :: 0 <= i < |inv| && 0 <= j < |recipes| ==> !Usable(inv[i], recipes[j], nodes))
  }

  /** An item no station can process is passed over: the answer for the rest is the answer. */
  lemma ProcessTargetSkips(inv: seq<Item>, recipes: seq<Recipe>, nodes: seq<NodeSpec>, r: Option<int>)
    requires |inv| > 0 && RecipeTarget(inv[0], recipes, nodes).None?
    requires ProcessTargetPost(inv[1..], recipes, nodes, r)
    ensures ProcessTargetPost(inv, recipes, nodes, r)
  {
    var tail := inv[1..];
    if r.Some? {
      var i :| 0 <= i < |tail| && r == RecipeTarget(tail[i], recipes, nodes)
               && forall i' :: 0 <= i' < i ==> RecipeTarget(tail[i'], recipes, nodes).None?;
      FoundLater(inv, recipes, nodes, r, i);
    } else {
      NoneUsable(inv, recipes, nodes);
    }
  }

  lemma FoundLater(inv: seq<Item>, recipes: seq<Recipe>, nodes: seq<NodeSpec>, r: Option<int>, i: nat)
    requires |inv| > 0 && RecipeTarget(inv[0], recipes, nodes).None?
    requires i < |inv| - 1 && r == RecipeTarget(inv[1..][i], recipes, nodes)
    requires forall i' :: 0 <= i' < i ==> RecipeTarget(inv[1..][i'], recipes, nodes).None?
    ensures exists k :: 0 <= k < |inv| && r == RecipeTarget(inv[k], recipes, nodes)
                       && forall i' :: 0 <= i' < k ==> RecipeTarget(inv[i'], recipes, nodes).None?
  {
    var tail := inv[1..];
    assert inv[i + 1] == tail[i];
    forall i' | 0 <= i' < i + 1 ensures RecipeTarget(inv[i'], recipes, nodes).None? {
      if i' > 0 {
        assert inv[i'] == tail[i' - 1];
      }
    }
  }

  lemma NoneUsable(inv: seq<Item>, recipes: seq<Recipe>, nodes: seq<NodeSpec>)
    requires |inv| > 0
    requires forall j :: 0 <= j < |recipes| ==> !Usable(inv[0], recipes[j], nodes)
    requires forall i, j :: 0 <= i < |inv[1..]| && 0 <= j < |recipes| ==> !Usable(inv[1..][i], recipes[j], nodes)
    ensures forall i, j :: 0 <= i < |inv| && 0 <= j < |recipes| ==> !Usable(inv[i], recipes[j], nodes)
  {
    var tail := inv[1..];
    forall i, j | 0 <= i < |inv| && 0 <= j < |recipes| ensures !Usable(inv[i], recipes[j], nodes) {
      if i > 0 {
        assert inv[i] == tail[i - 1];
      }
    }
  }

  /** The order `sorted(orders, key=time_remaining)[0]` picks: least time remaining, earliest among ties. */
  function MostUrgent(orders: seq<Order>): (k: nat)
    requires |orders| > 0
    ensures k < |orders|
    ensures forall j :: 0 <= j < |orders| ==> orders[k].timeRemaining <= orders[j].timeRemaining
    ensures forall j :: 0 <= j < k ==> orders[j].timeRemaining > orders[k].timeRemaining
  {
    if |orders| == 1 then 0
    else
      var k := MostUrgent(orders[1..]) + 1;
      assert forall j :: 1 <= j < |orders| ==> orders[1..][j - 1] == orders[j];
      if orders[0].timeRemaining <= orders[k].timeRemaining then 0 else k
  }

  /** `_get_raw_ingredient`: the input of the first recipe producing this item, else 0. */
  function RawIngredient(recipes: seq<Recipe>, finished: int): (raw: int)
    ensures (exists j :: 0 <= j < |recipes| && recipes[j].output == finished) ==>
      exists j :: 0 <= j < |recipes| && recipes[j].output == finished && raw == recipes[j].input
        && forall j' :: 0 <= j' < j ==> recipes[j'].output != finished
    ensures (forall j :: 0 <= j < |recipes| ==> recipes[j].output != finished) ==> raw == 0
  {
    if |recipes| == 0 then 0
    else if recipes[0].output == finished then recipes[0].input
    else
      var raw := RawIngredient(recipes[1..], finished);
      assert forall j :: 1 <= j < |recipes| ==> recipes[1..][j - 1] == recipes[j];
      raw
  }

  /** The first configured node that dispenses the given item. */
  function SourceNode(nodes: seq<NodeSpec>, item: int): (r: Option<int>)
    ensures r.Some? ==> exists k :: 0 <= k < |nodes| && nodes[k].itemId == Some(item) && nodes[k].id == r.value
                          && forall k' :: 0 <= k' < k ==> nodes[k'].itemId != Some(item)
    ensures r.None? ==> forall k :: 0 <= k < |nodes| ==> nodes[k].itemId != Some(item)
  {
    if |nodes| == 0 then None
    else if nodes[0].itemId == Some(item) then Some(nodes[0].id)
    else
      var r := SourceNode(nodes[1..], item);
      assert forall k :: 1 <= k < |nodes| ==> nodes[1..][k - 1] == nodes[k];
      r
  }

  /** Priority 4: the source of the raw input of the most urgent order, if any node dispenses it. */
  function FetchTarget(w: World): Option<int> {
    if |w.inventory| < w.config.sim.maxInventory && |w.orders| > 0 then
      SourceNode(w.config.nodes, RawIngredient(w.config.recipes, w.orders[MostUrgent(w.orders)].itemType))
    else None
  }

  /** Priority 2 gated by capacity. */
  function RetrieveTarget(w: World): Option<int> {
    if |w.inventory| < w.config.sim.maxInventory then ReadyStation(NodeIds(w.config.nodes), w.stations, w.orders)
    else None
  }

  /** `_decide_next_target`: the first rule that fires, else the agent's own node. */
  function DecideNextTarget(w: World): (t: int)
    ensures CanDeliver(w.inventory, w.orders) ==> t == DeliveryWindow
    ensures !CanDeliver(w.inventory, w.orders) && RetrieveTarget(w).Some? ==> t == RetrieveTarget(w).value
    ensures !CanDeliver(w.inventory, w.orders) && RetrieveTarget(w).None?
            && ProcessTarget(w.inventory, w.config.recipes, w.config.nodes).Some? ==>
            t == ProcessTarget(w.inventory, w.config.recipes, w.config.nodes).value
    ensures !CanDeliver(w.inventory, w.orders) && RetrieveTarget(w).None?
            && ProcessTarget(w.inventory, w.config.recipes, w.config.nodes).None? ==>
            t == FetchTarget(w).GetOr(w.agentNode)
  {
    AnyOrderMatchesIff(w.inventory, w.orders);
    if AnyOrderMatches(w.inventory, w.orders) then DeliveryWindow
    else if RetrieveTarget(w).Some? then RetrieveTarget(w).value
    else match ProcessTarget(w.inventory, w.config.recipes, w.config.nodes)
      case Some(t) => t
      case None => FetchTarget(w).GetOr(w.agentNode)
  }

  /** The planner only ever heads for the delivery window, its own node, or a configured node. */
  lemma DecideNamesKnownNode(w: World)
    ensures var t := DecideNextTarget(w);
      t == DeliveryWindow || t == w.agentNode || exists k :: 0 <= k < |w.config.nodes| && w.config.nodes[k].id == t
  {
    var t := DecideNextTarget(w);
    if !CanDeliver(w.inventory, w.orders) && RetrieveTarget(w).None? {
      var p := ProcessTarget(w.inventory, w.config.recipes, w.config.nodes);
      if p.Some? {
        var i :| 0 <= i < |w.inventory| && p == RecipeTarget(w.inventory[i], w.config.recipes, w.config.nodes);
      }
    }
  }

  /** An empty inventory with no ready station and no orders leaves the planner where it is. */
  lemma NothingToDoStaysPut(w: World)
    requires w.inventory == [] && w.orders == []
    ensures DecideNextTarget(w) == w.agentNode
  {
  }

  /**
   * What the graph library's `shortest_path(a, b)` answers: a path, the
   * `NetworkXNoPath` the planner catches, or the `NodeNotFound` it does not.
   */
  datatype PathAnswer = Path(nodes: seq<int>) | NoPath | NodeNotFound

  /** The library's message when an endpoint is not in the graph. */
  const NodeNotFoundError := "NodeNotFound"

  /**
   * `get_action` with the planner's remembered target: returns the action and
   * the target remembered afterwards. `shortestPath(a, b)` is the library's
   * weighted shortest path query; an answer naming a missing node raises.
   */
  /**
   * The target the planner heads for once it has not just arrived at a
   * station: a remembered target survives unless it is the floor (0, which
   * Python reads as false) or the node the agent stands on; otherwise the
   * planner decides a new one.
   */
  function EffectiveTarget(w: World, target: Option<int>): (t: int)
    ensures target.Some? && target.value != 0 && target.value != w.agentNode ==> t == target.value
    ensures target.None? || target.value == 0 || target.value == w.agentNode ==> t == DecideNextTarget(w)
  {
    match target
    case Some(x) => if x == 0 || x == w.agentNode then DecideNextTarget(w) else x
    case None => DecideNextTarget(w)
  }

  function GetAction(w: World, target: Option<int>, shortestPath: (int, int) -> PathAnswer): (r: Result<(int, Option<int>)>)
    ensures target == Some(w.agentNode) && w.agentNode != 0 ==> r == Success((InteractAction(w.config), None))
    ensures !(target == Some(w.agentNode) && w.agentNode != 0) && r.Success? ==> r.value.1.Some?
    ensures target.Some? && target.value != 0 && target.value != w.agentNode ==> r.Success? ==> r.value.1 == target
  {
    if target == Some(w.agentNode) && w.agentNode != 0 then Success((InteractAction(w.config), None))
    else
      var t := EffectiveTarget(w, target);
      if t == w.agentNode then Success((InteractAction(w.config), Some(t)))
      else match shortestPath(w.agentNode, t)
        case NodeNotFound => Failure(NodeNotFoundError)
        case NoPath => Success((w.agentNode, Some(t)))
        case Path(path) =>
          if |path| < 2 then Failure("IndexError: list index out of range")
          else Success((path[1], Some(t)))
  }

  /**
   * When every path the library returns is a walk between the nodes asked
   * about, the planner's action is an interact, staying put, or a move to a
   * node adjacent to the agent; and `path[1]` never raises, so the only
   * failure is the library's own `NodeNotFound`.
   */
  lemma GetActionFollowsWalks(w: World, target: Option<int>, shortestPath: (int, int) -> PathAnswer)
    requires forall u, v :: shortestPath(u, v).Path? ==> Navigation.WalkBetween(w.nav, shortestPath(u, v).nodes, u, v)
    ensures var r := GetAction(w, target, shortestPath);
      && (r.Success? ==> r.value.0 == InteractAction(w.config) || r.value.0 == w.agentNode
                         || Navigation.Adjacent(w.nav, w.agentNode, r.value.0))
      && (r.Failure? ==> r.error == NodeNotFoundError)
  {
    if !(target == Some(w.agentNode) && w.agentNode != 0) {
      var t := EffectiveTarget(w, target);
      if t != w.agentNode && shortestPath(w.agentNode, t).Path? {
        SecondNodeAdjacent(w.nav, shortestPath(w.agentNode, t).nodes, w.agentNode, t);
      }
    }
  }

  /** A walk between two distinct nodes has a second node, and it is adjacent to the first. */
  lemma SecondNodeAdjacent(g: Navigation.Graph, p: seq<int>, u: int, v: int)
    requires Navigation.WalkBetween(g, p, u, v) && u != v
    ensures |p| >= 2 && Navigation.Adjacent(g, u, p[1])
  {
    assert p[0] == u && p[|p| - 1] == v;
  }

  /**
   * Unless it has just arrived at a station, the planner heads for its
   * effective target: it interacts when already there, stays put when the
   * library finds no path, raises when the library names a missing node or
   * returns a path with no second node, and otherwise takes the path's next
   * hop. Either way it remembers the target.
   */
  lemma PlannedStep(w: World, target: Option<int>, shortestPath: (int, int) -> PathAnswer)
    ensures !(target == Some(w.agentNode) && w.agentNode != 0) ==>
      var t := EffectiveTarget(w, target);
      var r := GetAction(w, target, shortestPath);
      var answer := shortestPath(w.agentNode, t);
      && (t == w.agentNode ==> r == Success((InteractAction(w.config), Some(t))))
      && (t != w.agentNode && answer.NoPath? ==> r == Success((w.agentNode, Some(t))))
      && (t != w.agentNode && answer.NodeNotFound? ==> r == Failure(NodeNotFoundError))
      && (t != w.agentNode && answer.Path? && |answer.nodes| < 2 ==> r.Failure?)
      && (t != w.agentNode && answer.Path? && |answer.nodes| >= 2 ==> r == Success((answer.nodes[1], Some(t))))
  {
  }
}
