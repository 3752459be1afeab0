/**
 * The earlier simulation world (world.py): clock, agent, inventory, orders,
 * the stations in node-table order, and the two id counters. Moving costs
 * the shortest-path distance rather than one edge's weight. Randomness is an
 * explicit input, as in the packaged engine: one `Engine.Draw` per
 * simulated second and one item-type pick for the order `reset` spawns.
 */
module LegacyWorld {
  import opened Wrappers
  import opened Entities
  import LE = LegacyEntities
  import Navigation
  import opened LegacyConfig
  import Engine

  /**
   * `KitchenWorld`. The station dictionary is kept as the list of its
   * values in insertion order; each station carries its own node id.
   */
  datatype World = World(
    nav: Navigation.Graph,
    stations: seq<LE.Station>,
    agentNode: int,
    inventory: seq<Item>,
    orders: seq<Order>,
    globalTime: int,
    orderCounter: int,
    itemUidCounter: int)

  /** The distance `move_agent` falls back on when the table has no entry. */
  const MissingDistance := 10

  /** Position of the station with node id `k`: a dictionary lookup. */
  function StationAt(ss: seq<LE.Station>, k: int): (r: Option<nat>)
    ensures r.Some? ==> r.value < |ss| && ss[r.value].nodeId == k
    ensures r.None? ==> forall j :: 0 <= j < |ss| ==> ss[j].nodeId != k
  {
    if |ss| == 0 then None
    else if ss[0].nodeId == k then Some(0)
    else match StationAt(ss[1..], k)
      case None => None
      case Some(j) => Some(j + 1)
  }

  /** The station list built from the node table, one per node in table order. */
  function TableStations(): (ss: seq<LE.Station>)
    ensures |ss| == NumNodes
    ensures forall i :: 0 <= i < |ss| ==> ss[i] == LE.NewStation(NodeTable[i].id, NodeTable[i])
  {
    seq(|NodeTable|, i requires 0 <= i < |NodeTable| => LE.NewStation(NodeTable[i].id, NodeTable[i]))
  }

  /** `KitchenWorld.__init__`: agent on the floor, nothing held, no orders, counters 0. */
  function Init(dist: map<int, map<int, int>>): (w: World)
    ensures w.nav == LegacyGraph(dist)
    ensures |w.stations| == NumNodes
    ensures forall i :: 0 <= i < |w.stations| ==> w.stations[i].nodeId == i && LE.Empty(w.stations[i])
    ensures w.agentNode == 0 && w.inventory == [] && w.orders == []
    ensures w.globalTime == 0 && w.orderCounter == 0 && w.itemUidCounter == 0
  {
    NodeIdsAreIndices();
    World(LegacyGraph(dist), TableStations(), 0, [], [], 0, 0, 0)
  }

  function Clear(s: LE.Station): LE.Station {
    s.(heldItem := None, isBusy := false, timer := 0)
  }

  /** `spawn_order`: the next order id, one of the two dishes, a full time-to-live. */
  function SpawnOrder(w: World, second: bool): (w': World)
    ensures w'.orderCounter == w.orderCounter + 1
    ensures |w'.orders| == |w.orders| + 1 && w'.orders[..|w.orders|] == w.orders
    ensures var o := w'.orders[|w.orders|];
      && o.orderId == w.orderCounter + 1
      && o.itemType in Engine.SpawnChoices
      && o.timeRemaining == o.maxTime == OrderTtl
    ensures w' == w.(orderCounter := w'.orderCounter, orders := w'.orders)
  {
    var id := w.orderCounter + 1;
    w.(orderCounter := id, orders := w.orders + [Order(id, Engine.SpawnType(second), OrderTtl, OrderTtl)])
  }

  /**
   * `reset`: clock, agent, inventory, orders and the order counter back to
   * their start, every station emptied, then one order spawned. The item
   * uid counter is NOT reset.
   */
  function Reset(w: World, second: bool): (w': World)
    ensures w'.globalTime == 0 && w'.agentNode == 0 && w'.inventory == []
    ensures w'.orderCounter == 1 && |w'.orders| == 1
    ensures w'.orders[0].orderId == 1 && w'.orders[0].itemType in Engine.SpawnChoices
    ensures w'.orders[0].timeRemaining == w'.orders[0].maxTime == OrderTtl
    ensures |w'.stations| == |w.stations|
    ensures forall i :: 0 <= i < |w.stations| ==> w'.stations[i] == Clear(w.stations[i]) && LE.Empty(w'.stations[i])
    ensures w'.itemUidCounter == w.itemUidCounter && w'.nav == w.nav
  {
    var cleared := seq(|w.stations|, i requires 0 <= i < |w.stations| => Clear(w.stations[i]));
    SpawnOrder(w.(globalTime := 0, agentNode := 0, inventory := [], orders := [], orderCounter := 0, stations := cleared), second)
  }

  // ---- The clock -----------------------------------------------------------

  function TickStations(ss: seq<LE.Station>): (r: seq<LE.Station>)
    ensures |r| == |ss|
    ensures forall i :: 0 <= i < |ss| ==> r[i] == LE.Tick(ss[i]).1
  {
    if |ss| == 0 then [] else [LE.Tick(ss[0]).1] + TickStations(ss[1..])
  }

  /** One pass of the `tick_time` loop: clock, stations, order countdown, then perhaps a spawn. */
  function TickSecond(w: World, d: Engine.Draw): (r: (nat, World))
    ensures r.1.globalTime == w.globalTime + 1
    ensures r.1.stations == TickStations(w.stations)
    ensures r.0 == Engine.CountDown(w.orders).1
    ensures var kept := Engine.CountDown(w.orders).0;
      if |kept| < MaxOrders && d.spawn then
        && r.1.orders == kept + [Order(w.orderCounter + 1, Engine.SpawnType(d.second), OrderTtl, OrderTtl)]
        && r.1.orderCounter == w.orderCounter + 1
      else
        r.1.orders == kept && r.1.orderCounter == w.orderCounter
    ensures r.1 == w.(globalTime := r.1.globalTime, stations := r.1.stations, orders := r.1.orders, orderCounter := r.1.orderCounter)
  {
    var (kept, expired) := Engine.CountDown(w.orders);
    var w1 := w.(globalTime := w.globalTime + 1, stations := TickStations(w.stations), orders := kept);
    if |kept| < MaxOrders && d.spawn then (expired, SpawnOrder(w1, d.second))
    else (expired, w1)
  }

  /**
   * `tick_time(seconds)`: `max(seconds, 0)` passes of the loop; the pass that
   * brings the clock to t consumes `draws(t)`. Returns the number of orders
   * that expired and the new world.
   */
  function TickTime(w: World, seconds: int, draws: int -> Engine.Draw): (r: (nat, World))
    ensures r.1.globalTime == w.globalTime + Engine.Max(seconds, 0)
    ensures |r.1.stations| == |w.stations|
    ensures forall i :: 0 <= i < |w.stations| ==> r.1.stations[i].nodeId == w.stations[i].nodeId
    ensures r.1.nav == w.nav && r.1.agentNode == w.agentNode
    ensures r.1.inventory == w.inventory && r.1.itemUidCounter == w.itemUidCounter
    ensures |r.1.orders| <= Engine.Max(|w.orders|, MaxOrders)
    ensures r.1.orderCounter >= w.orderCounter
    ensures seconds <= 0 ==> r.0 == 0
    ensures r.0 + |r.1.orders| == |w.orders| + (r.1.orderCounter - w.orderCounter)
    decreases Engine.Max(seconds, 0)
  {
    if seconds <= 0 then (0, w)
    else
      var first := TickSecond(w, draws(w.globalTime + 1));
      var rest := TickTime(first.1, seconds - 1, draws);
      (first.0 + rest.0, rest.1)
  }

  /**
   * What every world reached from a reset satisfies: order ids strictly
   * increase along the list and never exceed the counter, and no item's uid
   * exceeds the uid counter.
   */
  predicate Consistent(w: World) {
    && w.orderCounter >= 0
    && Engine.IdsIncreasing(w.orders)
    && (forall i :: 0 <= i < |w.orders| ==> 1 <= w.orders[i].orderId <= w.orderCounter)
    && UidsBounded(w)
  }

  /** Every uid in the world is at most the counter. */
  predicate UidsBounded(w: World) {
    && (forall i :: 0 <= i < |w.inventory| ==> w.inventory[i].uid <= w.itemUidCounter)
    && (forall i :: 0 <= i < |w.stations| && w.stations[i].heldItem.Some? ==> w.stations[i].heldItem.value.uid <= w.itemUidCounter)
  }

  lemma ResetIsConsistent(w: World, second: bool)
    requires UidsBounded(w)
    ensures Consistent(Reset(w, second))
  {
  }

  /** A spawned order takes an id above every current one, so the invariant survives. */
  lemma SpawnOrderConsistent(w: World, second: bool)
    requires Consistent(w)
    ensures Consistent(SpawnOrder(w, second))
  {
    var w' := SpawnOrder(w, second);
    assert w'.orders == w.orders + [w'.orders[|w.orders|]];
    forall i | 0 <= i < |w'.orders| ensures 1 <= w'.orders[i].orderId <= w'.orderCounter {
      if i < |w.orders| { assert w'.orders[i] == w.orders[i]; }
    }
    forall i, j | 0 <= i < j < |w'.orders| ensures w'.orders[i].orderId < w'.orders[j].orderId {
      assert w'.orders[i] == w.orders[i];
      if j < |w.orders| { assert w'.orders[j] == w.orders[j]; }
    }
  }

  /** One pass keeps the invariant: survivors keep their increasing ids, a new order takes a larger one. */
  lemma TickSecondConsistent(w: World, d: Engine.Draw)
    requires Consistent(w)
    ensures Consistent(TickSecond(w, d).1)
  {
    var kept := Engine.CountDown(w.orders).0;
    var w1 := w.(globalTime := w.globalTime + 1, stations := TickStations(w.stations), orders := kept);
    TickedStationsBounded(w, w1.stations);
    CountedDownBounded(w.orders, kept, w.orderCounter);
    assert Consistent(w1);
    if |kept| < MaxOrders && d.spawn {
      SpawnOrderConsistent(w1, d.second);
      assert TickSecond(w, d).1 == SpawnOrder(w1, d.second);
    } else {
      assert TickSecond(w, d).1 == w1;
    }
  }

  /** Ticking the stations leaves their held items, and so their uids, as they were. */
  lemma TickedStationsBounded(w: World, ticked: seq<LE.Station>)
    requires UidsBounded(w) && ticked == TickStations(w.stations)
    ensures forall i :: 0 <= i < |ticked| && ticked[i].heldItem.Some? ==> ticked[i].heldItem.value.uid <= w.itemUidCounter
  {
    forall i | 0 <= i < |ticked| && ticked[i].heldItem.Some?
      ensures ticked[i].heldItem.value.uid <= w.itemUidCounter
    {
      assert ticked[i].heldItem == w.stations[i].heldItem;
    }
  }

  /** Orders whose ids all come from orders within the counter are within the counter. */
  lemma CountedDownBounded(orders: seq<Order>, kept: seq<Order>, counter: int)
    requires forall i :: 0 <= i < |kept| ==> exists j :: 0 <= j < |orders| && kept[i].orderId == orders[j].orderId
    requires forall i :: 0 <= i < |orders| ==> 1 <= orders[i].orderId <= counter
    ensures forall i :: 0 <= i < |kept| ==> 1 <= kept[i].orderId <= counter
  {
    forall i | 0 <= i < |kept| ensures 1 <= kept[i].orderId <= counter {
      var j :| 0 <= j < |orders| && kept[i].orderId == orders[j].orderId;
    }
  }

  /** `tick_time` keeps the invariant, however many seconds pass. */
  lemma {:induction false} TickTimeConsistent(w: World, seconds: int, draws: int -> Engine.Draw)
    requires Consistent(w)
    ensures Consistent(TickTime(w, seconds, draws).1)
    decreases Engine.Max(seconds, 0)
  {
    if seconds > 0 {
      var d := draws(w.globalTime + 1);
      var w1 := TickSecond(w, d).1;
      TickSecondConsistent(w, d);
      TickTimeConsistent(w1, seconds - 1, draws);
    }
  }

  // ---- Moving and items ----------------------------------------------------

  /**
   * `move_agent(target)`: staying put costs 1 and changes nothing; any other
   * target costs the table distance (10 when the table has no entry) and
   * relocates the agent. A current node with no table row raises.
   */
  function MoveAgent(w: World, target: int): (r: Result<(int, World)>)
    ensures r.Success? <==> target == w.agentNode || w.agentNode in w.nav.dist
    ensures target == w.agentNode ==> r == Success((1, w))
    ensures target != w.agentNode && r.Success? ==> r.value.1 == w.(agentNode := target)
    ensures target != w.agentNode && r.Success? && target !in w.nav.dist[w.agentNode] ==> r.value.0 == MissingDistance
    ensures target != w.agentNode && r.Success? && target in w.nav.dist[w.agentNode] ==> r.value.0 == w.nav.dist[w.agentNode][target]
  {
    if target == w.agentNode then Success((1, w))
    else if w.agentNode !in w.nav.dist then Failure("KeyError")
    else
      var row := w.nav.dist[w.agentNode];
      Success((if target in row then row[target] else MissingDistance, w.(agentNode := target)))
  }

  /**
   * On the configured graph with the library's distance table, a move
   * between two distinct nodes costs exactly the least total edge time of
   * any walk between them, and never the fallback distance.
   */
  lemma MoveCostsShortestDistance(w: World, target: int, p: seq<int>)
    requires Navigation.ShortestTable(w.nav) && w.nav == LegacyGraph(w.nav.dist)
    requires 0 <= w.agentNode < NumNodes && 0 <= target < NumNodes && target != w.agentNode
    requires Navigation.WalkBetween(w.nav, p, w.agentNode, target)
    ensures MoveAgent(w, target).Success?
    ensures MoveAgent(w, target).value.0 <= Navigation.WalkCost(w.nav, p)
    ensures exists q :: (Navigation.WalkBetween(w.nav, q, w.agentNode, target)
      && Navigation.WalkCost(w.nav, q) == MoveAgent(w, target).value.0)
  {
    DistanceTableComplete(w.nav.dist, w.agentNode, target);
    Navigation.ShortestBound(w.nav, w.agentNode, target, p);
    var q := Navigation.ShortestWitness(w.nav, w.agentNode, target);
  }

  /** `create_item(type)`: a new item whose uid is the counter after incrementing it. */
  function CreateItem(w: World, typeId: int): (r: (Item, World))
    ensures r.0.typeId == typeId && r.0.uid > w.itemUidCounter
    ensures r.1 == w.(itemUidCounter := r.0.uid)
    ensures r.1.itemUidCounter == w.itemUidCounter + 1
  {
    var uid := w.itemUidCounter + 1;
    (Item(typeId, uid), w.(itemUidCounter := uid))
  }

  /**
   * Because `reset` keeps the uid counter, an item created after a reset
   * has a larger uid than one created before it, and a fresh item's uid is
   * larger than every uid still in the world.
   */
  lemma UidsIncreaseAcrossReset(w: World, t1: int, second: bool, t2: int)
    requires UidsBounded(w)
    ensures var (i1, w1) := CreateItem(w, t1);
      var (i2, _) := CreateItem(Reset(w1, second), t2);
      && i1.uid < i2.uid
      && (forall i :: 0 <= i < |w.inventory| ==> w.inventory[i].uid < i1.uid)
      && (forall i :: 0 <= i < |w.stations| && w.stations[i].heldItem.Some? ==> w.stations[i].heldItem.value.uid < i1.uid)
  {
  }

  // ---- Snapshots -----------------------------------------------------------

  datatype OrderView = OrderView(id: int, item: int, ttl: int)
  datatype StationView = StationView(id: int, item: int, busy: bool, timer: int)

  /** The dictionary `get_snapshot` returns. */
  datatype Snapshot = Snapshot(
    time: int,
    agentNode: int,
    inventory: seq<int>,
    orders: seq<OrderView>,
    stations: seq<StationView>)

  function ViewOrder(o: Order): OrderView {
    OrderView(o.orderId, o.itemType, o.timeRemaining)
  }

  /** A station's entry: its id, its held item's type or 0, busy flag and timer. */
  function ViewStation(s: LE.Station): (v: StationView)
    ensures v.id == s.nodeId && v.busy == s.isBusy && v.timer == s.timer
    ensures s.heldItem.None? ==> v.item == 0
    ensures s.heldItem.Some? ==> v.item == s.heldItem.value.typeId
  {
    StationView(s.nodeId, if s.heldItem.Some? then s.heldItem.value.typeId else INone, s.isBusy, s.timer)
  }

  /** `get_snapshot`: inventory types and orders in stored order, one entry per station in table order. */
  function GetSnapshot(w: World): (s: Snapshot)
    ensures s.time == w.globalTime && s.agentNode == w.agentNode
    ensures |s.inventory| == |w.inventory| && forall i :: 0 <= i < |w.inventory| ==> s.inventory[i] == w.inventory[i].typeId
    ensures |s.orders| == |w.orders| && forall i :: 0 <= i < |w.orders| ==> s.orders[i] == ViewOrder(w.orders[i])
    ensures |s.stations| == |w.stations| && forall i :: 0 <= i < |w.stations| ==> s.stations[i] == ViewStation(w.stations[i])
  {
    Snapshot(
      w.globalTime,
      w.agentNode,
      seq(|w.inventory|, i requires 0 <= i < |w.inventory| => w.inventory[i].typeId),
      seq(|w.orders|, i requires 0 <= i < |w.orders| => ViewOrder(w.orders[i])),
      seq(|w.stations|, i requires 0 <= i < |w.stations| => ViewStation(w.stations[i])))
  }

  /** Right after a reset the snapshot shows time 0, the floor, no items, the one new order, and idle stations. */
  lemma SnapshotAfterReset(w: World, second: bool)
    ensures var s := GetSnapshot(Reset(w, second));
      && s.time == 0 && s.agentNode == 0 && s.inventory == []
      && |s.orders| == 1 && s.orders[0].id == 1 && s.orders[0].ttl == OrderTtl
      && |s.stations| == |w.stations|
      && forall i :: 0 <= i < |s.stations| ==>
           s.stations[i] == StationView(w.stations[i].nodeId, INone, false, 0)
  {
  }
}
