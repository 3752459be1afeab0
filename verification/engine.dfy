/**
 * The simulation engine (src/kitchen_rl/core/engine.py): the world record,
 * reset, the clock, moving, spawning orders, and applying a successful
 * interaction by decoding its outcome string. Randomness is an explicit
 * input: one `Draw` per simulated second, and one item-type pick at reset.
 */
module Engine {
  import opened Wrappers
  import opened Text
  import opened Entities
  import opened Navigation
  import opened KitchenConfig
  import opened Interactions

  /**
   * The random values one simulated second consumes: whether
   * `random.random() < 0.02` holds, and which of the two order types
   * `random.choice` returns should an order spawn.
   */
  datatype Draw = Draw(spawn: bool, second: bool)

  /** The order types a spawn chooses from: cooked potato and sliced tomato. */
  const SpawnChoices: seq<int> := [2, 4]

  function SpawnType(second: bool): (t: int)
    ensures t in SpawnChoices
  {
    if second then SpawnChoices[1] else SpawnChoices[0]
  }

  /** `KitchenWorld`: agent node, inventory, stations, orders, clock and the two id counters. */
  datatype World = World(
    config: Config,
    nav: Graph,
    stations: map<int, StationState>,
    agentNode: int,
    inventory: seq<Item>,
    orders: seq<Order>,
    globalTime: int,
    orderCounter: int,
    itemUidCounter: int)

  function Max(a: int, b: int): int {
    if a >= b then a else b
  }

  // ---- Construction and reset ---------------------------------------------

  function NewStation(n: NodeSpec): StationState {
    StationState(n.id, n.name, n.kind, n.itemId, None, 0, false)
  }

  /** The station dictionary built from the node table; a repeated id keeps its last entry. */
  function StationsOf(nodes: seq<NodeSpec>): (m: map<int, StationState>)
    ensures forall k :: k in m <==> exists i :: 0 <= i < |nodes| && nodes[i].id == k
    ensures forall k :: k in m ==> m[k].nodeId == k && Idle(m[k])
  {
    if |nodes| == 0 then map[]
    else
      var last := nodes[|nodes| - 1];
      var m := StationsOf(nodes[..|nodes| - 1]);
      assert forall i :: 0 <= i < |nodes| - 1 ==> nodes[..|nodes| - 1][i] == nodes[i];
      m[last.id := NewStation(last)]
  }

  /** A station with nothing on it, not busy, timer 0. */
  predicate Idle(s: StationState) {
    s.heldItem.None? && !s.isBusy && s.timer == 0
  }

  function ClearStation(s: StationState): StationState {
    s.(heldItem := None, isBusy := false, timer := 0)
  }

  /** `spawn_order`: the next order id, the chosen type, and a full time-to-live. */
  function SpawnOrder(w: World, second: bool): (w': World)
    ensures w'.orderCounter == w.orderCounter + 1
    ensures |w'.orders| == |w.orders| + 1 && w'.orders[..|w.orders|] == w.orders
    ensures w'.orders[|w.orders|].orderId == w.orderCounter + 1
    ensures w'.orders[|w.orders|].itemType in SpawnChoices
    ensures w'.orders[|w.orders|].timeRemaining == w'.orders[|w.orders|].maxTime == w.config.sim.orderTtl
    ensures w' == w.(orderCounter := w'.orderCounter, orders := w'.orders)
  {
    var id := w.orderCounter + 1;
    var ttl := w.config.sim.orderTtl;
    w.(orderCounter := id, orders := w.orders + [Order(id, SpawnType(second), ttl, ttl)])
  }

  /** `reset`: clock 0, agent at node 0, empty inventory, counters 0, every station idle, then one spawned order. */
  function Reset(w: World, second: bool): (w': World)
    ensures w'.globalTime == 0 && w'.agentNode == 0 && w'.inventory == []
    ensures w'.itemUidCounter == 0 && w'.orderCounter == 1
    ensures w'.stations.Keys == w.stations.Keys
    ensures forall k :: k in w.stations ==> Idle(w'.stations[k]) && w'.stations[k] == ClearStation(w.stations[k])
    ensures |w'.orders| == 1
    ensures w'.orders[0].orderId == 1 && w'.orders[0].itemType in SpawnChoices
    ensures w'.orders[0].timeRemaining == w'.orders[0].maxTime == w.config.sim.orderTtl
    ensures w'.config == w.config && w'.nav == w.nav
  {
    var cleared := map k | k in w.stations :: ClearStation(w.stations[k]);
    var blank := w.(globalTime := 0, agentNode := 0, inventory := [], orders := [],
                    orderCounter := 0, itemUidCounter := 0, stations := cleared);
    SpawnOrder(blank, second)
  }

  /** `KitchenWorld.__init__`: the navigation graph over the configured nodes and edges, one station per node, then `reset`. */
  function Build(config: Config, dist: map<int, map<int, int>>, second: bool): (w: World)
    ensures w.config == config
    ensures w.nav == Graph(NodeIds(config.nodes), config.edges, dist)
    ensures forall k :: k in w.stations <==> exists i :: 0 <= i < |config.nodes| && config.nodes[i].id == k
    ensures Consistent(w)
  {
    var w0 := World(config, Graph(NodeIds(config.nodes), config.edges, dist), StationsOf(config.nodes),
                    0, [], [], 0, 0, 0);
    var w := Reset(w0, second);
    ResetIsConsistent(w0, second);
    w
  }

  // ---- World invariant -----------------------------------------------------

  /** Order ids strictly increase along the order list. */
  predicate IdsIncreasing(orders: seq<Order>) {
    forall i, j :: 0 <= i < j < |orders| ==> orders[i].orderId < orders[j].orderId
  }

  /**
   * What every reachable world satisfies: order ids increase along the list
   * and never exceed the counter, and every item's uid is at most the uid
   * counter (so a new uid is fresh).
   */
  predicate Consistent(w: World) {
    && w.orderCounter >= 0 && w.itemUidCounter >= 0
    && IdsIncreasing(w.orders)
    && (forall i :: 0 <= i < |w.orders| ==> 1 <= w.orders[i].orderId <= w.orderCounter)
    && (forall i :: 0 <= i < |w.inventory| ==> w.inventory[i].uid <= w.itemUidCounter)
    && (forall k :: k in w.stations && w.stations[k].heldItem.Some? ==> w.stations[k].heldItem.value.uid <= w.itemUidCounter)
  }

  lemma ResetIsConsistent(w: World, second: bool)
    ensures Consistent(Reset(w, second))
  {
  }

  // ---- The clock -----------------------------------------------------------

  function Decrement(o: Order): Order {
    o.(timeRemaining := o.timeRemaining - 1)
  }

  /**
   * One second of the order countdown: every order loses one unit; those now
   * expired are dropped and counted, the others stay in their order.
   */
  function CountDown(orders: seq<Order>): (r: (seq<Order>, nat))
    ensures |r.0| + r.1 == |orders|
    ensures forall i :: 0 <= i < |r.0| ==> !IsExpired(r.0[i])
    ensures forall o :: o in r.0 <==> exists i :: 0 <= i < |orders| && o == Decrement(orders[i]) && !IsExpired(o)
    ensures forall i :: 0 <= i < |r.0| ==> exists j :: 0 <= j < |orders| && r.0[i].orderId == orders[j].orderId
    ensures IdsIncreasing(orders) ==> IdsIncreasing(r.0)
  {
    if |orders| == 0 then ([], 0)
    else
      var rest := CountDown(orders[1..]);
      var first := Decrement(orders[0]);
      if IsExpired(first) then
        CountDownDrops(orders, rest);
        (rest.0, rest.1 + 1)
      else
        CountDownKeeps(orders, rest);
        ([first] + rest.0, rest.1)
  }

  /** What `CountDown` promises of its result `r`, bundled for the two recursive cases. */
  ghost predicate CountDownPost(orders: seq<Order>, r: (seq<Order>, nat)) {
    && |r.0| + r.1 == |orders|
    && (forall i :: 0 <= i < |r.0| ==> !IsExpired(r.0[i]))
    && (forall o :: o in r.0 <==> exists i :: 0 <= i < |orders| && o == Decrement(orders[i]) && !IsExpired(o))
    && (forall i :: 0 <= i < |r.0| ==> exists j :: 0 <= j < |orders| && r.0[i].orderId == orders[j].orderId)
    && (IdsIncreasing(orders) ==> IdsIncreasing(r.0))
  }

  /** Every order one unit down, in place. */
  function Decremented(orders: seq<Order>): (r: seq<Order>)
    ensures |r| == |orders| && forall i :: 0 <= i < |orders| ==> r[i] == Decrement(orders[i])
  {
    seq(|orders|, i requires 0 <= i < |orders| => Decrement(orders[i]))
  }

  /** The orders that have not expired, in their order. */
  function Unexpired(s: seq<Order>): seq<Order> {
    if |s| == 0 then [] else (if IsExpired(s[0]) then [] else [s[0]]) + Unexpired(s[1..])
  }

  /** The first order expires: it is counted and the rest's survivors are all that is kept. */
  lemma CountDownDrops(orders: seq<Order>, rest: (seq<Order>, nat))
    requires |orders| > 0 && IsExpired(Decrement(orders[0]))
    requires CountDownPost(orders[1..], rest)
    ensures CountDownPost(orders, (rest.0, rest.1 + 1))
  {
    var tail := orders[1..];
    forall o ensures o in rest.0 <==> exists i :: 0 <= i < |orders| && o == Decrement(orders[i]) && !IsExpired(o) {
      if o in rest.0 {
        var i :| 0 <= i < |tail| && o == Decrement(tail[i]) && !IsExpired(o);
        assert orders[i + 1] == tail[i];
      }
      if exists i :: 0 <= i < |orders| && o == Decrement(orders[i]) && !IsExpired(o) {
        var i :| 0 <= i < |orders| && o == Decrement(orders[i]) && !IsExpired(o);
        assert i > 0 && tail[i - 1] == orders[i];
      }
    }
    forall i | 0 <= i < |rest.0| ensures exists j :: 0 <= j < |orders| && rest.0[i].orderId == orders[j].orderId {
      var j :| 0 <= j < |tail| && rest.0[i].orderId == tail[j].orderId;
      assert orders[j + 1] == tail[j];
    }
    if IdsIncreasing(orders) {
      TailIncreasing(orders);
    }
  }

  /** The first order survives: it is kept, one unit down, in front of the rest's survivors. */
  lemma CountDownKeeps(orders: seq<Order>, rest: (seq<Order>, nat))
    requires |orders| > 0 && !IsExpired(Decrement(orders[0]))
    requires CountDownPost(orders[1..], rest)
    ensures CountDownPost(orders, ([Decrement(orders[0])] + rest.0, rest.1))
  {
    var kept := [Decrement(orders[0])] + rest.0;
    KeptMembers(orders, rest.0);
    KeptIds(orders, rest.0);
    if IdsIncreasing(orders) {
      TailIncreasing(orders);
      KeptIncreasing(orders, rest.0);
    }
    assert forall i :: 0 <= i < |kept| ==> !IsExpired(kept[i]) by {
      assert forall i :: 1 <= i < |kept| ==> kept[i] == rest.0[i - 1];
    }
  }

  /**
   * The countdown's survivors are exactly the orders decremented one unit,
   * then filtered to the unexpired ones: nothing is reordered, duplicated or
   * lost beyond the expired.
   */
  lemma {:induction false} CountDownFilters(orders: seq<Order>)
    ensures CountDown(orders).0 == Unexpired(Decremented(orders))
    decreases |orders|
  {
    if |orders| > 0 {
      var rest := CountDown(orders[1..]);
      CountDownFilters(orders[1..]);
      if IsExpired(Decrement(orders[0])) {
        UnexpiredDrops(orders, rest.0);
      } else {
        UnexpiredKeeps(orders, rest.0);
      }
    }
  }

  /** An order that expires on this second is filtered out. */
  lemma UnexpiredDrops(orders: seq<Order>, survivors: seq<Order>)
    requires |orders| > 0 && IsExpired(Decrement(orders[0]))
    requires survivors == Unexpired(Decremented(orders[1..]))
    ensures survivors == Unexpired(Decremented(orders))
  {
    var d := Decremented(orders);
    assert d[1..] == Decremented(orders[1..]);
    assert [] + survivors == survivors;
  }

  /** An order that survives this second is kept, one unit down, in front. */
  lemma UnexpiredKeeps(orders: seq<Order>, survivors: seq<Order>)
    requires |orders| > 0 && !IsExpired(Decrement(orders[0]))
    requires survivors == Unexpired(Decremented(orders[1..]))
    ensures [Decrement(orders[0])] + survivors == Unexpired(Decremented(orders))
  {
    var d := Decremented(orders);
    assert d[1..] == Decremented(orders[1..]);
  }

  lemma TailIncreasing(orders: seq<Order>)
    requires |orders| > 0 && IdsIncreasing(orders)
    ensures IdsIncreasing(orders[1..])
  {
    var tail := orders[1..];
    forall i, j | 0 <= i < j < |tail| ensures tail[i].orderId < tail[j].orderId {
      assert tail[i] == orders[i + 1] && tail[j] == orders[j + 1];
    }
  }

  lemma KeptMembers(orders: seq<Order>, survivors: seq<Order>)
    requires |orders| > 0 && !IsExpired(Decrement(orders[0]))
    requires forall o :: o in survivors <==> exists i :: 0 <= i < |orders[1..]| && o == Decrement(orders[1..][i]) && !IsExpired(o)
    ensures forall o :: o in [Decrement(orders[0])] + survivors <==>
      exists i :: 0 <= i < |orders| && o == Decrement(orders[i]) && !IsExpired(o)
  {
    var tail := orders[1..];
    var kept := [Decrement(orders[0])] + survivors;
    forall o ensures o in kept <==> exists i :: 0 <= i < |orders| && o == Decrement(orders[i]) && !IsExpired(o) {
      if o in survivors {
        var i :| 0 <= i < |tail| && o == Decrement(tail[i]) && !IsExpired(o);
        assert orders[i + 1] == tail[i];
      }
      if exists i :: 0 <= i < |orders| && o == Decrement(orders[i]) && !IsExpired(o) {
        var i :| 0 <= i < |orders| && o == Decrement(orders[i]) && !IsExpired(o);
        if i > 0 {
          assert tail[i - 1] == orders[i];
        }
      }
    }
  }

  lemma KeptIds(orders: seq<Order>, survivors: seq<Order>)
    requires |orders| > 0
    requires forall i :: 0 <= i < |survivors| ==> exists j :: 0 <= j < |orders[1..]| && survivors[i].orderId == orders[1..][j].orderId
    ensures forall i :: 0 <= i < |survivors| + 1 ==>
      exists j :: 0 <= j < |orders| && ([Decrement(orders[0])] + survivors)[i].orderId == orders[j].orderId
  {
    var tail := orders[1..];
    var kept := [Decrement(orders[0])] + survivors;
    forall i | 0 <= i < |kept| ensures exists j :: 0 <= j < |orders| && kept[i].orderId == orders[j].orderId {
      if i > 0 {
        assert kept[i] == survivors[i - 1];
        var j :| 0 <= j < |tail| && survivors[i - 1].orderId == tail[j].orderId;
        assert orders[j + 1] == tail[j];
      } else {
        assert kept[0].orderId == orders[0].orderId;
      }
    }
  }

  lemma KeptIncreasing(orders: seq<Order>, survivors: seq<Order>)
    requires |orders| > 0 && IdsIncreasing(orders) && IdsIncreasing(survivors)
    requires forall i :: 0 <= i < |survivors| ==> exists j :: 0 <= j < |orders[1..]| && survivors[i].orderId == orders[1..][j].orderId
    ensures IdsIncreasing([Decrement(orders[0])] + survivors)
  {
    var tail := orders[1..];
    var kept := [Decrement(orders[0])] + survivors;
    forall i, j | 0 <= i < j < |kept| ensures kept[i].orderId < kept[j].orderId {
      assert kept[j] == survivors[j - 1];
      if i > 0 {
        assert kept[i] == survivors[i - 1];
      } else {
        var j' :| 0 <= j' < |tail| && survivors[j - 1].orderId == tail[j'].orderId;
        assert tail[j'] == orders[j' + 1];
      }
    }
  }

  function TickStations(stations: map<int, StationState>): (m: map<int, StationState>)
    ensures m.Keys == stations.Keys
    ensures forall k :: k in stations ==> m[k] == Entities.Tick(stations[k]).station
  {
    map k | k in stations :: Entities.Tick(stations[k]).station
  }

  /** One simulated second: advance the clock, tick every station, count down orders, maybe spawn. */
  function TickSecond(w: World, d: Draw): (r: (nat, World))
    ensures r.1.globalTime == w.globalTime + 1
    ensures r.1.stations == TickStations(w.stations)
    ensures r.0 == CountDown(w.orders).1
    ensures var kept := CountDown(w.orders).0;
      if |kept| < w.config.sim.maxOrders && d.spawn then
        && r.1.orders == kept + [Order(w.orderCounter + 1, SpawnType(d.second), w.config.sim.orderTtl, w.config.sim.orderTtl)]
        && r.1.orderCounter == w.orderCounter + 1
      else
        r.1.orders == kept && r.1.orderCounter == w.orderCounter
    ensures r.1.config == w.config && r.1.nav == w.nav && r.1.agentNode == w.agentNode
    ensures r.1.inventory == w.inventory && r.1.itemUidCounter == w.itemUidCounter
  {
    var (kept, expired) := CountDown(w.orders);
    var w1 := w.(globalTime := w.globalTime + 1, stations := TickStations(w.stations), orders := kept);
    if |kept| < w.config.sim.maxOrders && d.spawn then (expired, SpawnOrder(w1, d.second))
    else (expired, w1)
  }

  /**
   * `tick(seconds)`: `max(seconds, 0)` simulated seconds; the second that
   * brings the clock to t consumes `draws(t)`. Returns the number of expired
   * orders and the new world.
   */
  function Tick(w: World, seconds: int, draws: int -> Draw): (r: (nat, World))
    ensures r.1.globalTime == w.globalTime + Max(seconds, 0)
    ensures r.1.stations.Keys == w.stations.Keys
    ensures r.1.config == w.config && r.1.nav == w.nav && r.1.agentNode == w.agentNode
    ensures r.1.inventory == w.inventory && r.1.itemUidCounter == w.itemUidCounter
    ensures |r.1.orders| <= Max(|w.orders|, w.config.sim.maxOrders)
    ensures r.1.orderCounter >= w.orderCounter
    ensures seconds <= 0 ==> r.0 == 0
    ensures r.0 + |r.1.orders| == |w.orders| + (r.1.orderCounter - w.orderCounter)
    decreases Max(seconds, 0)
  {
    if seconds <= 0 then (0, w)
    else
      var (e1, w1) := TickSecond(w, draws(w.globalTime + 1));
      var (e2, w2) := Tick(w1, seconds - 1, draws);
      (e1 + e2, w2)
  }

  /** A second keeps the invariant: survivors keep increasing ids, a spawned order takes a fresh larger id. */
  lemma TickSecondConsistent(w: World, d: Draw)
    requires Consistent(w)
    ensures Consistent(TickSecond(w, d).1)
  {
    var (kept, _) := CountDown(w.orders);
    var w' := TickSecond(w, d).1;
    forall k | k in w'.stations && w'.stations[k].heldItem.Some?
      ensures w'.stations[k].heldItem.value.uid <= w'.itemUidCounter
    {
      assert w'.stations[k].heldItem == w.stations[k].heldItem;
    }
    forall i | 0 <= i < |kept| ensures 1 <= kept[i].orderId <= w.orderCounter {
      var j :| 0 <= j < |w.orders| && kept[i].orderId == w.orders[j].orderId;
    }
    if |kept| < w.config.sim.maxOrders && d.spawn {
      AppendFreshId(kept, w'.orders[|kept|], w.orderCounter);
    }
  }

  /** Appending an order whose id is one past the counter keeps the ids increasing and within the new counter. */
  lemma AppendFreshId(kept: seq<Order>, o: Order, counter: int)
    requires IdsIncreasing(kept)
    requires forall i :: 0 <= i < |kept| ==> 1 <= kept[i].orderId <= counter
    requires o.orderId == counter + 1 && counter >= 0
    ensures IdsIncreasing(kept + [o])
    ensures forall i :: 0 <= i < |kept + [o]| ==> 1 <= (kept + [o])[i].orderId <= counter + 1
  {
    var s := kept + [o];
    forall i | 0 <= i < |s| ensures 1 <= s[i].orderId <= counter + 1 {
      if i < |kept| { assert s[i] == kept[i]; }
    }
    forall i, j | 0 <= i < j < |s| ensures s[i].orderId < s[j].orderId {
      assert s[i] == kept[i];
      if j < |kept| { assert s[j] == kept[j]; }
    }
  }

  lemma {:induction false} TickConsistent(w: World, seconds: int, draws: int -> Draw)
    requires Consistent(w)
    ensures Consistent(Tick(w, seconds, draws).1)
    decreases Max(seconds, 0)
  {
    if seconds > 0 {
      var w1 := TickSecond(w, draws(w.globalTime + 1)).1;
      TickSecondConsistent(w, draws(w.globalTime + 1));
      TickConsistent(w1, seconds - 1, draws);
    }
  }

  /** An order that spawns at a tick has the next id and one of the two order types. */
  lemma SpawnedOrderFresh(w: World, d: Draw)
    requires Consistent(w)
    requires |CountDown(w.orders).0| < w.config.sim.maxOrders && d.spawn
    ensures var o := TickSecond(w, d).1.orders[|CountDown(w.orders).0|];
      && o.orderId == w.orderCounter + 1
      && o.itemType in SpawnChoices
      && forall i :: 0 <= i < |w.orders| ==> w.orders[i].orderId < o.orderId
  {
  }

  // ---- Moving --------------------------------------------------------------

  /** `move_agent(target)`: the agent always relocates; the cost is the graph's move cost. */
  function MoveAgent(w: World, target: int): (r: (int, World))
    ensures r.1 == w.(agentNode := target)
    ensures r.0 == MoveCost(w.nav, w.agentNode, target)
    ensures r.0 == 1 <==> w.agentNode == target || (Adjacent(w.nav, w.agentNode, target) && EdgeWeight(w.nav.edges, w.agentNode, target).value == 1)
    ensures w.agentNode != target && !Adjacent(w.nav, w.agentNode, target) ==> r.0 == NotAdjacentCost
  {
    (MoveCost(w.nav, w.agentNode, target), w.(agentNode := target))
  }

  // ---- Interacting ---------------------------------------------------------

  /** What the engine does after splitting a successful outcome string on `_`. */
  datatype Command =
    | PickupCmd
    | RetrieveCmd
    | PlaceCmd(index: int, output: int, duration: int)
    | DeliverCmd(index: int, orderId: int)
    | NoCommand

  /** Parses `parts[k]` with `int`, raising as Python does on a missing part or a non-number. */
  function IntPart(parts: seq<string>, k: nat): Result<int> {
    if k >= |parts| then Failure("IndexError: list index out of range")
    else match ParseInt(parts[k])
      case Some(v) => Success(v)
      case None => Failure("ValueError: invalid literal for int()")
  }

  /** The decoding half of the outcome protocol: `info.split('_')` and the `int` conversions. */
  function ParseOutcome(info: string): Result<Command> {
    var parts := Split(info, '_');
    if parts[0] == "Pickup" then Success(PickupCmd)
    else if parts[0] == "Retrieve" then Success(RetrieveCmd)
    else if parts[0] == "Place" then
      var i :- IntPart(parts, 1);
      var o :- IntPart(parts, 2);
      var t :- IntPart(parts, 3);
      Success(PlaceCmd(i, o, t))
    else if parts[0] == "Deliver" then
      var i :- IntPart(parts, 1);
      var k :- IntPart(parts, 2);
      Success(DeliverCmd(i, k))
    else Success(NoCommand)
  }

  /** The command an intent's outcome string stands for. */
  function CommandOf(it: Intent): Command {
    match it
    case Pickup(_) => PickupCmd
    case Retrieve => RetrieveCmd
    case Place(i, o, t) => PlaceCmd(i, o, t)
    case Deliver(i, k) => DeliverCmd(i, k)
  }

  /** Encoding an intent in one file and decoding it in the other recovers every encoded number. */
  lemma ParseEncode(it: Intent)
    ensures ParseOutcome(Encode(it)) == Success(CommandOf(it))
  {
    DecodeEncode(it);
  }

  /** Python's `list.pop(i)` accepts -len <= i < len, counting negative indexes from the end. */
  predicate PopIndexValid(n: int, i: int) {
    -n <= i < n
  }

  function PopPosition(n: int, i: int): (p: int)
    requires PopIndexValid(n, i)
    ensures 0 <= p < n
  {
    if i < 0 then n + i else i
  }

  function RemoveAt<T>(s: seq<T>, p: int): (r: seq<T>)
    requires 0 <= p < |s|
    ensures |r| == |s| - 1
    ensures forall j :: 0 <= j < p ==> r[j] == s[j]
    ensures forall j :: p <= j < |r| ==> r[j] == s[j + 1]
  {
    s[..p] + s[p + 1..]
  }

  /** `[o for o in orders if o.order_id != id]`. */
  function RemoveOrderId(orders: seq<Order>, id: int): (r: seq<Order>)
    ensures forall o :: o in r <==> o in orders && o.orderId != id
    ensures |r| <= |orders|
    ensures (exists i :: 0 <= i < |orders| && orders[i].orderId == id) ==> |r| < |orders|
    ensures IdsIncreasing(orders) ==> IdsIncreasing(r)
  {
    if |orders| == 0 then []
    else
      var rest := RemoveOrderId(orders[1..], id);
      if orders[0].orderId == id then
        RemoveOrderIdDrops(orders, id, rest);
        rest
      else
        RemoveOrderIdKeeps(orders, id, rest);
        [orders[0]] + rest
  }

  /** What `RemoveOrderId` promises of its result `r`, bundled for the two recursive cases. */
  ghost predicate RemoveOrderIdPost(orders: seq<Order>, id: int, r: seq<Order>) {
    && (forall o :: o in r <==> o in orders && o.orderId != id)
    && |r| <= |orders|
    && ((exists i :: 0 <= i < |orders| && orders[i].orderId == id) ==> |r| < |orders|)
    && (IdsIncreasing(orders) ==> IdsIncreasing(r))
  }

  lemma RemoveOrderIdDrops(orders: seq<Order>, id: int, rest: seq<Order>)
    requires |orders| > 0 && orders[0].orderId == id
    requires RemoveOrderIdPost(orders[1..], id, rest)
    ensures RemoveOrderIdPost(orders, id, rest)
  {
    assert orders == [orders[0]] + orders[1..];
    if IdsIncreasing(orders) {
      TailIncreasing(orders);
    }
  }

  lemma RemoveOrderIdKeeps(orders: seq<Order>, id: int, rest: seq<Order>)
    requires |orders| > 0 && orders[0].orderId != id
    requires RemoveOrderIdPost(orders[1..], id, rest)
    ensures RemoveOrderIdPost(orders, id, [orders[0]] + rest)
  {
    var tail := orders[1..];
    assert orders == [orders[0]] + tail;
    if exists i :: 0 <= i < |orders| && orders[i].orderId == id {
      var i :| 0 <= i < |orders| && orders[i].orderId == id;
      assert tail[i - 1] == orders[i];
    }
    if IdsIncreasing(orders) {
      TailIncreasing(orders);
      var kept := [orders[0]] + rest;
      forall i, j | 0 <= i < j < |kept| ensures kept[i].orderId < kept[j].orderId {
        assert kept[j] == rest[j - 1];
        if i > 0 {
          assert kept[i] == rest[i - 1];
        } else {
          assert rest[j - 1] in tail;
          var k :| 0 <= k < |tail| && tail[k] == rest[j - 1];
          assert tail[k] == orders[k + 1];
        }
      }
    }
  }

  /** Applies a decoded command at the agent's station. */
  function Apply(w: World, station: StationState, cmd: Command): Result<World>
    requires w.agentNode in w.stations
  {
    match cmd
    case PickupCmd =>
      if station.sourceItemId.None? then Failure("TypeError: int() argument must not be None")
      else
        var uid := w.itemUidCounter + 1;
        Success(w.(itemUidCounter := uid, inventory := w.inventory + [Item(station.sourceItemId.value, uid)]))
    case RetrieveCmd =>
      if station.heldItem.None? then Failure("no held item to retrieve")
      else Success(w.(inventory := w.inventory + [station.heldItem.value],
                      stations := w.stations[w.agentNode := station.(heldItem := None)]))
    case PlaceCmd(i, o, t) =>
      if !PopIndexValid(|w.inventory|, i) then Failure("IndexError: pop index out of range")
      else
        var p := PopPosition(|w.inventory|, i);
        var item := w.inventory[p].(typeId := o);
        Success(w.(inventory := RemoveAt(w.inventory, p),
                   stations := w.stations[w.agentNode := station.(heldItem := Some(item), isBusy := true, timer := t)]))
    case DeliverCmd(i, k) =>
      if !PopIndexValid(|w.inventory|, i) then Failure("IndexError: pop index out of range")
      else
        var p := PopPosition(|w.inventory|, i);
        Success(w.(inventory := RemoveAt(w.inventory, p), orders := RemoveOrderId(w.orders, k)))
    case NoCommand => Success(w)
  }

  /**
   * `interact`: ask the strategies, and on success decode the outcome string
   * and apply it. Returns the outcome text and the new world; the reward is
   * not modelled. A failed attempt changes nothing.
   */
  function Interact(w: World): (r: Result<(string, World)>)
    ensures w.agentNode !in w.stations ==> r.Failure?
    ensures w.agentNode in w.stations ==>
      var attempt := AttemptInteraction(w.stations[w.agentNode], w.inventory, w.orders, w.config);
      && (!attempt.success ==> r == Success((attempt.info, w)))
      && (r.Success? ==> r.value.0 == attempt.info)
  {
    if w.agentNode !in w.stations then Failure("KeyError: agent is not at a station")
    else
      var station := w.stations[w.agentNode];
      var attempt := AttemptInteraction(station, w.inventory, w.orders, w.config);
      if !attempt.success then Success((attempt.info, w))
      else
        var cmd :- ParseOutcome(attempt.info);
        var w' :- Apply(w, station, cmd);
        Success((attempt.info, w'))
  }

  /** The mutation an intent names, stated independently of the string protocol. */
  function Effect(w: World, it: Intent): Result<World>
    requires w.agentNode in w.stations
  {
    var station := w.stations[w.agentNode];
    match it
    case Pickup(None) => Failure("TypeError: int() argument must not be None")
    case Pickup(Some(id)) =>
      Success(w.(itemUidCounter := w.itemUidCounter + 1, inventory := w.inventory + [Item(id, w.itemUidCounter + 1)]))
    case Retrieve =>
      if station.heldItem.None? then Failure("no held item to retrieve")
      else Success(w.(inventory := w.inventory + [station.heldItem.value],
                      stations := w.stations[w.agentNode := station.(heldItem := None)]))
    case Place(i, o, t) =>
      if !(0 <= i < |w.inventory|) then Failure("IndexError: pop index out of range")
      else Success(w.(inventory := w.inventory[..i] + w.inventory[i + 1..],
                      stations := w.stations[w.agentNode := station.(heldItem := Some(w.inventory[i].(typeId := o)), isBusy := true, timer := t)]))
    case Deliver(i, k) =>
      if !(0 <= i < |w.inventory|) then Failure("IndexError: pop index out of range")
      else Success(w.(inventory := w.inventory[..i] + w.inventory[i + 1..], orders := RemoveOrderId(w.orders, k)))
  }

  /**
   * The round trip between the two halves of the protocol: whatever intent the
   * strategies encode, splitting the string and applying it performs exactly
   * that intent's mutation: Pickup appends one item with uid counter + 1,
   * Place pops item i, retypes it to o and starts the timer t, Retrieve moves
   * the held item to the end of the inventory, Deliver pops item i and drops
   * only the orders with id k.
   */
  lemma InteractDoesWhatOutcomeSays(w: World, it: Intent)
    requires w.agentNode in w.stations
    requires AttemptInteraction(w.stations[w.agentNode], w.inventory, w.orders, w.config).success
    requires AttemptInteraction(w.stations[w.agentNode], w.inventory, w.orders, w.config).info == Encode(it)
    ensures Interact(w) == match Effect(w, it)
      case Success(w') => Success((Encode(it), w'))
      case Failure(e) => Failure(e)
  {
    var station := w.stations[w.agentNode];
    ParseEncode(it);
    EncodeInjective(it, DecodedIntent(station, w.inventory, w.orders, w.config));
    ApplyMatchesEffect(w, it);
    assert Interact(w) == match Apply(w, station, CommandOf(it))
      case Success(w') => Success((Encode(it), w'))
      case Failure(e) => Failure(e);
  }

  /** Applying an intent's command performs the intent's mutation, for in-range indexes. */
  lemma ApplyMatchesEffect(w: World, it: Intent)
    requires w.agentNode in w.stations
    requires it.Place? ==> 0 <= it.index < |w.inventory|
    requires it.Deliver? ==> 0 <= it.index < |w.inventory|
    requires it.Pickup? ==> it.source == w.stations[w.agentNode].sourceItemId
    ensures Apply(w, w.stations[w.agentNode], CommandOf(it)) == Effect(w, it)
  {
  }

  /** A successful interaction fails to apply only at a source that names no item. */
  lemma InteractFailsOnlyWithoutSourceItem(w: World)
    requires w.agentNode in w.stations
    ensures Interact(w).Failure? <==>
      var s := w.stations[w.agentNode];
      s.stationType == "source" && |w.inventory| < w.config.sim.maxInventory && s.sourceItemId.None?
  {
    var s := w.stations[w.agentNode];
    var attempt := AttemptInteraction(s, w.inventory, w.orders, w.config);
    if attempt.success {
      var it := DecodedIntent(s, w.inventory, w.orders, w.config);
      InteractDoesWhatOutcomeSays(w, it);
    }
  }

  /** Only Pickup and Retrieve grow the inventory, and both are capacity-gated. */
  lemma InteractKeepsInventoryBound(w: World)
    requires w.agentNode in w.stations
    requires |w.inventory| <= w.config.sim.maxInventory
    requires Interact(w).Success?
    ensures |Interact(w).value.1.inventory| <= w.config.sim.maxInventory
  {
    var s := w.stations[w.agentNode];
    var attempt := AttemptInteraction(s, w.inventory, w.orders, w.config);
    if attempt.success {
      var it := DecodedIntent(s, w.inventory, w.orders, w.config);
      InteractDoesWhatOutcomeSays(w, it);
    }
  }

  /** Interacting keeps the world invariant: a picked-up item takes a fresh uid, delivery keeps ids increasing. */
  lemma InteractConsistent(w: World)
    requires Consistent(w) && w.agentNode in w.stations
    requires Interact(w).Success?
    ensures Consistent(Interact(w).value.1)
  {
    var s := w.stations[w.agentNode];
    var attempt := AttemptInteraction(s, w.inventory, w.orders, w.config);
    if attempt.success {
      var it := DecodedIntent(s, w.inventory, w.orders, w.config);
      InteractDoesWhatOutcomeSays(w, it);
      EffectConsistent(w, it);
    }
  }

  lemma EffectConsistent(w: World, it: Intent)
    requires Consistent(w) && w.agentNode in w.stations
    requires Effect(w, it).Success?
    ensures Consistent(Effect(w, it).value)
  {
    var w' := Effect(w, it).value;
    match it {
      case Pickup(_) =>
      case Retrieve =>
      case Place(i, o, t) =>
        forall k | k in w'.stations && w'.stations[k].heldItem.Some?
          ensures w'.stations[k].heldItem.value.uid <= w'.itemUidCounter
        {
          if k == w.agentNode {
            assert w'.stations[k].heldItem.value.uid == w.inventory[i].uid;
          }
        }
        forall j | 0 <= j < |w'.inventory| ensures w'.inventory[j].uid <= w'.itemUidCounter {
          if j < i { assert w'.inventory[j] == w.inventory[j]; }
          else { assert w'.inventory[j] == w.inventory[j + 1]; }
        }
      case Deliver(i, k) =>
        forall j | 0 <= j < |w'.inventory| ensures w'.inventory[j].uid <= w'.itemUidCounter {
          if j < i { assert w'.inventory[j] == w.inventory[j]; }
          else { assert w'.inventory[j] == w.inventory[j + 1]; }
        }
        forall j | 0 <= j < |w'.orders| ensures 1 <= w'.orders[j].orderId <= w'.orderCounter {
          assert w'.orders[j] in w.orders;
        }
    }
  }

  /** Interacting never adds an order: Deliver can only remove them. */
  lemma InteractKeepsOrderBound(w: World)
    requires w.agentNode in w.stations
    requires Interact(w).Success?
    ensures |Interact(w).value.1.orders| <= |w.orders|
  {
    var s := w.stations[w.agentNode];
    var attempt := AttemptInteraction(s, w.inventory, w.orders, w.config);
    if attempt.success {
      var it := DecodedIntent(s, w.inventory, w.orders, w.config);
      InteractDoesWhatOutcomeSays(w, it);
    }
  }

  /** Interacting never changes the configuration, the graph, the clock or the agent's node. */
  lemma InteractKeepsConfig(w: World)
    requires Interact(w).Success?
    ensures var w' := Interact(w).value.1;
      w'.config == w.config && w'.nav == w.nav && w'.globalTime == w.globalTime && w'.agentNode == w.agentNode
  {
    var s := w.stations[w.agentNode];
    var attempt := AttemptInteraction(s, w.inventory, w.orders, w.config);
    if attempt.success {
      var it := DecodedIntent(s, w.inventory, w.orders, w.config);
      InteractDoesWhatOutcomeSays(w, it);
    }
  }
}
