/**
 * The earlier Gymnasium environment (kitchen_env.py): the interaction
 * handler, which applies its effects directly (one interact at the service
 * window can deliver several items), the time accounting of `step`, and the
 * snapshot history. Observations and rewards are floating point and are not
 * modelled; the `Outcome` says which reward branch was taken.
 */
module LegacyEnv {
  import opened Wrappers
  import opened Entities
  import LE = LegacyEntities
  import opened LegacyConfig
  import opened LegacyWorld
  import Engine
  import Interactions
  import Navigation

  /** Which branch of `_handle_interaction` ran; each carries one fixed reward in the source. */
  datatype Outcome =
    | Delivered(count: nat)
    | NothingMatched
    | PickedUp
    | SourceFull
    | Retrieved
    | NoRoom
    | Placed
    | NoRecipeItem
    | StationBusy
    | NoEffect

  /** Some order asks for item type `t`. */
  ghost predicate Wanted(orders: seq<Order>, t: int) {
    exists k :: 0 <= k < |orders| && orders[k].itemType == t
  }

  lemma RemoveAtShrinks<T>(s: seq<T>, p: int)
    requires 0 <= p < |s|
    ensures multiset(Engine.RemoveAt(s, p)) <= multiset(s)
  {
    assert s == s[..p] + [s[p]] + s[p + 1..];
  }

  lemma RemoveAtKeepsIncreasing(orders: seq<Order>, p: int)
    requires 0 <= p < |orders|
    ensures Engine.IdsIncreasing(orders) ==> Engine.IdsIncreasing(Engine.RemoveAt(orders, p))
  {
    var r := Engine.RemoveAt(orders, p);
    if Engine.IdsIncreasing(orders) {
      forall i, j | 0 <= i < j < |r| ensures r[i].orderId < r[j].orderId {
        var i' := if i < p then i else i + 1;
        var j' := if j < p then j else j + 1;
        assert r[i] == orders[i'] && r[j] == orders[j'];
      }
    }
  }

  /** An order list drawn from one that wants nothing of type `t` wants nothing of type `t` either. */
  lemma UnwantedStaysUnwanted(orders: seq<Order>, fewer: seq<Order>, t: int)
    requires multiset(fewer) <= multiset(orders)
    requires forall j :: 0 <= j < |orders| ==> orders[j].itemType != t
    ensures !Wanted(fewer, t)
  {
    forall k | 0 <= k < |fewer| ensures fewer[k].itemType != t {
      assert fewer[k] in multiset(fewer);
      assert fewer[k] in orders;
    }
  }

  /** An item no order wants does not change whether the rest of the inventory can be delivered. */
  lemma CanDeliverTail(inv: seq<Item>, orders: seq<Order>)
    requires |inv| > 0
    requires forall j :: 0 <= j < |orders| ==> orders[j].itemType != inv[0].typeId
    ensures Interactions.CanDeliver(inv, orders) <==> Interactions.CanDeliver(inv[1..], orders)
  {
    if Interactions.CanDeliver(inv, orders) {
      var i, k :| 0 <= i < |inv| && 0 <= k < |orders| && orders[k].itemType == inv[i].typeId;
      assert i > 0 && inv[1..][i - 1] == inv[i];
    }
    if Interactions.CanDeliver(inv[1..], orders) {
      var i, k :| 0 <= i < |inv[1..]| && 0 <= k < |orders| && orders[k].itemType == inv[1..][i].typeId;
      assert inv[i + 1] == inv[1..][i];
    }
  }

  /**
   * The delivery loop: scanning the inventory in order, each item that some
   * remaining order wants consumes the first such order; the others are kept.
   * Returns the kept items, the remaining orders and the number delivered.
   */
  function Deliver(inv: seq<Item>, orders: seq<Order>): (r: (seq<Item>, seq<Order>, nat))
    ensures |r.0| + r.2 == |inv| && |r.1| + r.2 == |orders|
    ensures multiset(r.0) <= multiset(inv) && multiset(r.1) <= multiset(orders)
    ensures forall i :: 0 <= i < |r.0| ==> !Wanted(r.1, r.0[i].typeId)
    ensures r.2 == 0 <==> !Interactions.CanDeliver(inv, orders)
    ensures Engine.IdsIncreasing(orders) ==> Engine.IdsIncreasing(r.1)
    decreases |inv|
  {
    if |inv| == 0 then ([], orders, 0)
    else match Interactions.FirstOrder(orders, inv[0].typeId)
      case Some(k) =>
        var rest := Deliver(inv[1..], Engine.RemoveAt(orders, k));
        DeliverMatched(inv, orders, k, rest);
        (rest.0, rest.1, rest.2 + 1)
      case None =>
        var rest := Deliver(inv[1..], orders);
        DeliverUnmatched(inv, orders, rest);
        ([inv[0]] + rest.0, rest.1, rest.2)
  }

  /** What `Deliver` promises of its result `r`, bundled for the two recursive cases. */
  ghost predicate DeliverPost(inv: seq<Item>, orders: seq<Order>, r: (seq<Item>, seq<Order>, nat)) {
    && |r.0| + r.2 == |inv| && |r.1| + r.2 == |orders|
    && multiset(r.0) <= multiset(inv) && multiset(r.1) <= multiset(orders)
    && (forall i :: 0 <= i < |r.0| ==> !Wanted(r.1, r.0[i].typeId))
    && (r.2 == 0 <==> !Interactions.CanDeliver(inv, orders))
    && (Engine.IdsIncreasing(orders) ==> Engine.IdsIncreasing(r.1))
  }

  /** The first item is wanted: it consumes its first order and the rest is delivered against the others. */
  lemma DeliverMatched(inv: seq<Item>, orders: seq<Order>, k: nat, rest: (seq<Item>, seq<Order>, nat))
    requires |inv| > 0 && Interactions.FirstOrder(orders, inv[0].typeId) == Some(k)
    requires DeliverPost(inv[1..], Engine.RemoveAt(orders, k), rest)
    ensures DeliverPost(inv, orders, (rest.0, rest.1, rest.2 + 1))
  {
    RemoveAtShrinks(orders, k);
    RemoveAtKeepsIncreasing(orders, k);
    assert multiset(inv[1..]) <= multiset(inv) by {
      assert inv == [inv[0]] + inv[1..];
    }
    assert 0 <= 0 < |inv| && orders[k].itemType == inv[0].typeId;
  }

  /** The first item is unwanted: it is kept in front of whatever the rest leaves. */
  lemma DeliverUnmatched(inv: seq<Item>, orders: seq<Order>, rest: (seq<Item>, seq<Order>, nat))
    requires |inv| > 0 && Interactions.FirstOrder(orders, inv[0].typeId).None?
    requires DeliverPost(inv[1..], orders, rest)
    ensures DeliverPost(inv, orders, ([inv[0]] + rest.0, rest.1, rest.2))
  {
    UnwantedStaysUnwanted(orders, rest.1, inv[0].typeId);
    CanDeliverTail(inv, orders);
    assert inv == [inv[0]] + inv[1..];
    var kept := [inv[0]] + rest.0;
    assert forall i :: 1 <= i < |kept| ==> kept[i] == rest.0[i - 1];
  }

  // ---- Delivery as cancellation ------------------------------------------

  /** The item types carried, with multiplicity. */
  function ItemTypes(inv: seq<Item>): (m: multiset<int>)
    ensures |m| == |inv|
  {
    if |inv| == 0 then multiset{} else multiset{inv[0].typeId} + ItemTypes(inv[1..])
  }

  /** The item types the orders ask for, with multiplicity. */
  function OrderTypes(orders: seq<Order>): (m: multiset<int>)
    ensures |m| == |orders|
  {
    if |orders| == 0 then multiset{} else multiset{orders[0].itemType} + OrderTypes(orders[1..])
  }

  /**
   * Reference definition of the orders left over: scanning the orders
   * (not the items), each order whose type is still among the `offered`
   * types is cancelled against one of them. For every type t this removes
   * exactly the first min(items of t, orders of t) orders of type t.
   */
  function UnmatchedOrders(orders: seq<Order>, offered: multiset<int>): (r: seq<Order>)
    ensures |r| <= |orders|
  {
    if |orders| == 0 then []
    else if orders[0].itemType in offered then UnmatchedOrders(orders[1..], offered - multiset{orders[0].itemType})
    else [orders[0]] + UnmatchedOrders(orders[1..], offered)
  }

  /** The same cancellation seen from the items: the first items of each type are handed in while orders for that type last. */
  function UnmatchedItems(inv: seq<Item>, wanted: multiset<int>): (r: seq<Item>)
    ensures |r| <= |inv|
  {
    if |inv| == 0 then []
    else if inv[0].typeId in wanted then UnmatchedItems(inv[1..], wanted - multiset{inv[0].typeId})
    else [inv[0]] + UnmatchedItems(inv[1..], wanted)
  }

  /** Offering one more item of type t cancels the first order of type t, at index k. */
  lemma {:induction false} OfferCancelsFirst(orders: seq<Order>, offered: multiset<int>, t: int, k: nat)
    requires Interactions.FirstOrder(orders, t) == Some(k)
    ensures UnmatchedOrders(orders, offered + multiset{t}) == UnmatchedOrders(Engine.RemoveAt(orders, k), offered)
    decreases |orders|
  {
    var more := offered + multiset{t};
    var fewer := Engine.RemoveAt(orders, k);
    if k == 0 {
      assert fewer == orders[1..];
      assert more - multiset{t} == offered;
    } else {
      var t0 := orders[0].itemType;
      assert t0 != t;
      assert fewer[0] == orders[0] && fewer[1..] == Engine.RemoveAt(orders[1..], k - 1);
      assert Interactions.FirstOrder(orders[1..], t) == Some(k - 1);
      if t0 in offered {
        assert more - multiset{t0} == (offered - multiset{t0}) + multiset{t};
        OfferCancelsFirst(orders[1..], offered - multiset{t0}, t, k - 1);
      } else {
        assert t0 !in more;
        OfferCancelsFirst(orders[1..], offered, t, k - 1);
      }
    }
  }

  /** Offering an item no order wants cancels nothing. */
  lemma {:induction false} OfferUnwanted(orders: seq<Order>, offered: multiset<int>, t: int)
    requires forall j :: 0 <= j < |orders| ==> orders[j].itemType != t
    ensures UnmatchedOrders(orders, offered + multiset{t}) == UnmatchedOrders(orders, offered)
    decreases |orders|
  {
    if |orders| > 0 {
      var t0 := orders[0].itemType;
      var more := offered + multiset{t};
      assert t0 != t && (t0 in more <==> t0 in offered);
      if t0 in offered {
        assert more - multiset{t0} == (offered - multiset{t0}) + multiset{t};
        OfferUnwanted(orders[1..], offered - multiset{t0}, t);
      } else {
        OfferUnwanted(orders[1..], offered, t);
      }
    }
  }

  lemma {:induction false} OrderTypesRemoveAt(orders: seq<Order>, k: nat)
    requires k < |orders|
    ensures orders[k].itemType in OrderTypes(orders)
    ensures OrderTypes(Engine.RemoveAt(orders, k)) == OrderTypes(orders) - multiset{orders[k].itemType}
    decreases k
  {
    var fewer := Engine.RemoveAt(orders, k);
    if k == 0 {
      assert fewer == orders[1..];
    } else {
      var tail := orders[1..];
      var t0, tk := orders[0].itemType, orders[k].itemType;
      var a := OrderTypes(tail);
      OrderTypesRemoveAt(tail, k - 1);
      assert tail[k - 1] == orders[k];
      assert fewer[0] == orders[0] && fewer[1..] == Engine.RemoveAt(tail, k - 1);
      assert OrderTypes(fewer) == multiset{t0} + (a - multiset{tk});
      assert OrderTypes(orders) == multiset{t0} + a;
      MultisetShift(a, t0, tk);
    }
  }

  lemma MultisetShift(a: multiset<int>, x: int, y: int)
    requires y in a
    ensures multiset{x} + (a - multiset{y}) == (multiset{x} + a) - multiset{y}
  {
  }

  lemma {:induction false} OrderTypesNone(orders: seq<Order>, t: int)
    requires forall j :: 0 <= j < |orders| ==> orders[j].itemType != t
    ensures t !in OrderTypes(orders)
    decreases |orders|
  {
    if |orders| > 0 {
      OrderTypesNone(orders[1..], t);
    }
  }

  /**
   * The delivery loop is a cancellation of items against orders by type:
   * what stays in the inventory is exactly the items left over when the
   * order types are cancelled against the items in inventory order, and
   * what stays in the order list is exactly the orders left over when the
   * carried types are cancelled against the orders in list order. So each
   * delivered item consumes the earliest order of its type that is still
   * open, and the two survivor lists keep their relative order.
   */
  lemma {:induction false} DeliverCancels(inv: seq<Item>, orders: seq<Order>)
    ensures Deliver(inv, orders).0 == UnmatchedItems(inv, OrderTypes(orders))
    ensures Deliver(inv, orders).1 == UnmatchedOrders(orders, ItemTypes(inv))
    decreases |inv|
  {
    if |inv| == 0 {
      assert ItemTypes(inv) == multiset{};
      NothingOffered(orders);
    } else {
      var t := inv[0].typeId;
      assert ItemTypes(inv) == ItemTypes(inv[1..]) + multiset{t};
      match Interactions.FirstOrder(orders, t) {
        case Some(k) =>
          var fewer := Engine.RemoveAt(orders, k);
          DeliverCancels(inv[1..], fewer);
          OrderTypesRemoveAt(orders, k);
          OfferCancelsFirst(orders, ItemTypes(inv[1..]), t, k);
          assert Deliver(inv, orders).0 == Deliver(inv[1..], fewer).0;
          assert Deliver(inv, orders).1 == Deliver(inv[1..], fewer).1;
        case None =>
          DeliverCancels(inv[1..], orders);
          OrderTypesNone(orders, t);
          OfferUnwanted(orders, ItemTypes(inv[1..]), t);
          assert Deliver(inv, orders).0 == [inv[0]] + Deliver(inv[1..], orders).0;
          assert Deliver(inv, orders).1 == Deliver(inv[1..], orders).1;
      }
    }
  }

  /** A potato (type 2) handed in against a potato order and a tomato order consumes the potato order. */
  lemma DeliverPicksMatchingOrder()
    ensures Deliver([Item(2, 1)], [Order(1, 2, 50, 50), Order(2, 4, 50, 50)]) == ([], [Order(2, 4, 50, 50)], 1)
  {
    var orders := [Order(1, 2, 50, 50), Order(2, 4, 50, 50)];
    DeliverCancels([Item(2, 1)], orders);
    assert ItemTypes([Item(2, 1)]) == multiset{2};
    assert orders[1..] == [Order(2, 4, 50, 50)];
    assert UnmatchedOrders(orders, multiset{2}) == UnmatchedOrders([Order(2, 4, 50, 50)], multiset{});
    NothingOffered([Order(2, 4, 50, 50)]);
  }

  lemma {:induction false} NothingOffered(orders: seq<Order>)
    ensures UnmatchedOrders(orders, multiset{}) == orders
    decreases |orders|
  {
    if |orders| > 0 {
      NothingOffered(orders[1..]);
    }
  }

  /** Index of the first inventory item that has a recipe at the station called `name`. */
  function FirstCookable(inv: seq<Item>, name: string): (r: Option<nat>)
    ensures r.Some? ==> r.value < |inv| && (inv[r.value].typeId, name) in Recipes
    ensures r.Some? ==> forall j :: 0 <= j < r.value ==> (inv[j].typeId, name) !in Recipes
    ensures r.None? ==> forall j :: 0 <= j < |inv| ==> (inv[j].typeId, name) !in Recipes
  {
    if |inv| == 0 then None
    else if (inv[0].typeId, name) in Recipes then Some(0)
    else match FirstCookable(inv[1..], name)
      case None => None
      case Some(j) => Some(j + 1)
  }

  /**
   * `_handle_interaction`: dispatch on the type of the station under the
   * agent and apply the effect. A node with no station raises.
   */
  function HandleInteraction(w: World): (r: Result<(Outcome, World)>)
    ensures r.Success? <==> StationAt(w.stations, w.agentNode).Some?
    ensures r.Success? ==> var w' := r.value.1;
      && w'.agentNode == w.agentNode && w'.globalTime == w.globalTime && w'.nav == w.nav
      && w'.orderCounter == w.orderCounter && |w'.stations| == |w.stations|
      && (forall i :: 0 <= i < |w.stations| ==> w'.stations[i].nodeId == w.stations[i].nodeId)
      && |w'.orders| <= |w.orders|
  {
    match StationAt(w.stations, w.agentNode)
    case None => Failure("KeyError")
    case Some(p) =>
      var st := w.stations[p];
      if st.stationType == StDelivery then
        var (kept, remaining, n) := Deliver(w.inventory, w.orders);
        Success((if n > 0 then Delivered(n) else NothingMatched, w.(inventory := kept, orders := remaining)))
      else if st.stationType == StSource then
        if |w.inventory| < MaxInventory then
          var (item, w1) := CreateItem(w, st.sourceItem.GetOr(INone));
          Success((PickedUp, w1.(inventory := w1.inventory + [item])))
        else Success((SourceFull, w))
      else if st.stationType == StProcess then
        if st.heldItem.Some? && !st.isBusy then
          if |w.inventory| < MaxInventory then
            Success((Retrieved, w.(inventory := w.inventory + [st.heldItem.value],
                                   stations := w.stations[p := st.(heldItem := None)])))
          else Success((NoRoom, w))
        else if st.heldItem.None? then
          match FirstCookable(w.inventory, st.name)
          case None => Success((NoRecipeItem, w))
          case Some(i) =>
            var rec := Recipes[(w.inventory[i].typeId, st.name)];
            var cooked := w.inventory[i].(typeId := rec.output);
            Success((Placed, w.(inventory := Engine.RemoveAt(w.inventory, i),
                                stations := w.stations[p := LE.StartProcessing(st.(heldItem := Some(cooked)), rec.time)])))
        else Success((StationBusy, w))
      else Success((NoEffect, w))
  }

  // ---- What each station type does ----------------------------------------

  /**
   * At the service window every wanted item is handed in against its own
   * order and every unwanted one stays: as many orders go as items, and what
   * is left wants none of what is kept. Nothing was delivered exactly when
   * no item matched any order.
   */
  lemma DeliveryEffect(w: World)
    requires StationAt(w.stations, w.agentNode).Some?
    requires w.stations[StationAt(w.stations, w.agentNode).value].stationType == StDelivery
    ensures var (out, w') := HandleInteraction(w).value;
      && |w.inventory| - |w'.inventory| == |w.orders| - |w'.orders|
      && multiset(w'.inventory) <= multiset(w.inventory)
      && multiset(w'.orders) <= multiset(w.orders)
      && (forall i :: 0 <= i < |w'.inventory| ==> !Wanted(w'.orders, w'.inventory[i].typeId))
      && (out == NothingMatched <==> !Interactions.CanDeliver(w.inventory, w.orders))
      && (out == NothingMatched ==> w' == w)
      && (out != NothingMatched ==> out == Delivered(|w.inventory| - |w'.inventory|))
      && w'.stations == w.stations && w'.itemUidCounter == w.itemUidCounter
  {
    var d := Deliver(w.inventory, w.orders);
    assert HandleInteraction(w).value == (if d.2 > 0 then Delivered(d.2) else NothingMatched, w.(inventory := d.0, orders := d.1));
    if d.2 == 0 {
      SameMultisetNoDelivery(w.inventory, w.orders);
    }
  }

  /**
   * Which items and orders the service window takes: the carried types are
   * cancelled against the ordered types, each item against the earliest
   * open order of its type.
   */
  lemma DeliveryCancels(w: World)
    requires StationAt(w.stations, w.agentNode).Some?
    requires w.stations[StationAt(w.stations, w.agentNode).value].stationType == StDelivery
    ensures var w' := HandleInteraction(w).value.1;
      && w'.inventory == UnmatchedItems(w.inventory, OrderTypes(w.orders))
      && w'.orders == UnmatchedOrders(w.orders, ItemTypes(w.inventory))
  {
    var d := Deliver(w.inventory, w.orders);
    assert HandleInteraction(w).value.1 == w.(inventory := d.0, orders := d.1);
    DeliverCancels(w.inventory, w.orders);
  }

  lemma MultisetSubsetSameSize<T>(a: multiset<T>, b: multiset<T>)
    requires a <= b && |a| == |b|
    ensures a == b
  {
    var c := b - a;
    assert b == a + c;
    assert |c| == 0;
  }

  /** When nothing is delivered the inventory and orders come back unchanged. */
  lemma {:induction false} SameMultisetNoDelivery(inv: seq<Item>, orders: seq<Order>)
    requires Deliver(inv, orders).2 == 0
    ensures Deliver(inv, orders).0 == inv && Deliver(inv, orders).1 == orders
    decreases |inv|
  {
    if |inv| > 0 && Interactions.FirstOrder(orders, inv[0].typeId).None? {
      var rest := Deliver(inv[1..], orders);
      assert Deliver(inv, orders) == ([inv[0]] + rest.0, rest.1, rest.2);
      SameMultisetNoDelivery(inv[1..], orders);
      assert inv == [inv[0]] + inv[1..];
    }
  }

  /** At a source, a new item with the next uid is appended exactly when there is room; otherwise nothing changes. */
  lemma SourceEffect(w: World)
    requires StationAt(w.stations, w.agentNode).Some?
    requires w.stations[StationAt(w.stations, w.agentNode).value].stationType == StSource
    ensures var st := w.stations[StationAt(w.stations, w.agentNode).value];
      var (out, w') := HandleInteraction(w).value;
      if |w.inventory| < MaxInventory then
        && out == PickedUp
        && w' == w.(inventory := w.inventory + [Item(st.sourceItem.GetOr(INone), w.itemUidCounter + 1)],
                    itemUidCounter := w.itemUidCounter + 1)
      else
        out == SourceFull && w' == w
  {
  }

  /**
   * At a process station: a finished item is retrieved when there is room;
   * an empty station takes the first inventory item with a recipe there,
   * retyped to the product and timed by the recipe; a busy station, a full
   * inventory or no suitable item changes nothing.
   */
  lemma ProcessEffect(w: World)
    requires StationAt(w.stations, w.agentNode).Some?
    requires w.stations[StationAt(w.stations, w.agentNode).value].stationType == StProcess
    ensures var p := StationAt(w.stations, w.agentNode).value;
      var st := w.stations[p];
      var (out, w') := HandleInteraction(w).value;
      && (st.heldItem.Some? && !st.isBusy && |w.inventory| < MaxInventory ==>
            out == Retrieved && w'.inventory == w.inventory + [st.heldItem.value]
            && w'.stations[p].heldItem.None? && w'.orders == w.orders)
      && (st.heldItem.None? && FirstCookable(w.inventory, st.name).Some? ==>
            var i := FirstCookable(w.inventory, st.name).value;
            var rec := Recipes[(w.inventory[i].typeId, st.name)];
            && out == Placed
            && w'.inventory == w.inventory[..i] + w.inventory[i + 1..]
            && w'.stations[p].heldItem == Some(Item(rec.output, w.inventory[i].uid))
            && w'.stations[p].isBusy && w'.stations[p].timer == rec.time
            && w'.orders == w.orders)
      && (out in {NoRoom, NoRecipeItem, StationBusy} <==> w' == w)
      && (st.isBusy && st.heldItem.Some? ==> out == StationBusy)
  {
    var p := StationAt(w.stations, w.agentNode).value;
    var st := w.stations[p];
    var (out, w') := HandleInteraction(w).value;
    if out == Retrieved {
      assert |w'.inventory| == |w.inventory| + 1;
    } else if out == Placed {
      assert |w'.inventory| + 1 == |w.inventory|;
    }
  }

  /** A station of any other type (the floor) does nothing. */
  lemma OtherStationNoEffect(w: World)
    requires StationAt(w.stations, w.agentNode).Some?
    requires w.stations[StationAt(w.stations, w.agentNode).value].stationType !in {StDelivery, StSource, StProcess}
    ensures HandleInteraction(w) == Success((NoEffect, w))
  {
  }

  // ---- The environment -----------------------------------------------------

  /** The environment: the world and the per-step snapshot history. */
  datatype Env = Env(world: World, history: seq<Snapshot>)

  /** Every node id 0 .. 5 has an entry in the station table. */
  predicate StationsCover(ss: seq<LE.Station>) {
    forall i :: 0 <= i < NumNodes ==> StationAt(ss, i).Some?
  }

  /**
   * The two lookups of `_get_obs` that can raise: the agent's row of the
   * distance table, and the station of every node id; both are dictionary
   * reads, so a missing key is a KeyError.
   */
  function ObserveError(w: World): (r: Option<string>)
    ensures r.None? <==> w.agentNode in w.nav.dist && StationsCover(w.stations)
    ensures r.Some? ==> r == Some("KeyError")
  {
    if w.agentNode !in w.nav.dist || !StationsCover(w.stations) then Some("KeyError")
    else None
  }

  /** A station table's lookups depend only on the node ids, position by position. */
  lemma {:induction false} StationAtSameIds(a: seq<LE.Station>, b: seq<LE.Station>, k: int)
    requires |a| == |b| && forall j :: 0 <= j < |a| ==> a[j].nodeId == b[j].nodeId
    ensures StationAt(a, k) == StationAt(b, k)
    decreases |a|
  {
    if |a| > 0 {
      StationAtSameIds(a[1..], b[1..], k);
    }
  }

  /** Tables with the same node ids cover the same nodes. */
  lemma CoverSameIds(a: seq<LE.Station>, b: seq<LE.Station>)
    requires |a| == |b| && forall j :: 0 <= j < |a| ==> a[j].nodeId == b[j].nodeId
    ensures StationsCover(a) <==> StationsCover(b)
  {
    forall k { StationAtSameIds(a, b, k); }
  }

  /** Six stations are not enough: when none carries node id 0, the observation raises, whatever the table's length. */
  lemma MisnumberedStationsRaise(w: World)
    requires forall j :: 0 <= j < |w.stations| ==> w.stations[j].nodeId != 0
    ensures ObserveError(w) == Some("KeyError")
  {
    assert StationAt(w.stations, 0).None?;
  }

  /** A valid world has the station of every node, at its own position. */
  lemma ValidCovers(w: World)
    ensures Valid(w) ==> StationsCover(w.stations)
  {
    if Valid(w) {
      forall i | 0 <= i < NumNodes ensures StationAt(w.stations, i).Some? {
        assert w.stations[i].nodeId == i;
      }
    }
  }

  /**
   * `reset`: reset the world, clear the history, and build the first
   * observation, which needs the distance row of node 0 and the station of
   * every node.
   */
  function ResetEnv(e: Env, second: bool): (r: Result<Env>)
    ensures r.Success? <==> 0 in e.world.nav.dist && StationsCover(e.world.stations)
    ensures r.Failure? ==> r.error == "KeyError"
    ensures r.Success? ==> r.value.history == [] && r.value.world == Reset(e.world, second)
    ensures Valid(e.world) ==> r.Success? && Valid(r.value.world)
  {
    var w := Reset(e.world, second);
    CoverSameIds(w.stations, e.world.stations);
    ValidCovers(e.world);
    match ObserveError(w)
    case Some(err) => Failure(err)
    case None => Success(Env(w, []))
  }

  /** The non-float part of `step`'s return value. */
  datatype StepResult = StepResult(
    env: Env,
    timePassed: int,
    expired: nat,
    outcome: Option<Outcome>,
    terminated: bool,
    truncated: bool)

  /**
   * The action before the clock runs: a move below `NumNodes` (staying put
   * costs 1 without calling `move_agent`), `NumNodes` is interact at a cost
   * of 1, and any larger action does nothing and costs 0.
   */
  function Act(w: World, action: int): (r: Result<(int, Option<Outcome>, World)>)
    ensures action < NumNodes && action == w.agentNode ==> r == Success((1, None, w))
    ensures action < NumNodes && action != w.agentNode ==>
      (r.Success? <==> w.agentNode in w.nav.dist)
      && (r.Success? ==> r.value.1.None? && r.value.2 == w.(agentNode := action))
    ensures action == NumNodes ==>
      (r.Success? <==> HandleInteraction(w).Success?)
      && (r.Success? ==> r.value.0 == 1 && r.value.1 == Some(HandleInteraction(w).value.0) && r.value.2 == HandleInteraction(w).value.1)
    ensures action > NumNodes ==> r == Success((0, None, w))
  {
    if action < NumNodes then
      if action == w.agentNode then Success((1, None, w))
      else
        var (cost, w') :- MoveAgent(w, action);
        Success((cost, None, w'))
    else if action == NumNodes then
      var (out, w') :- HandleInteraction(w);
      Success((1, Some(out), w'))
    else Success((0, None, w))
  }

  /**
   * `step(action)`: act, run the clock once for the time taken, append the
   * snapshot to the history, and report with a fresh observation. Never
   * terminates; truncates at `MAX_STEPS`. The observation raises a KeyError
   * when the agent ends on a node without a distance row.
   */
  function Step(e: Env, action: int, draws: int -> Engine.Draw): (r: Result<StepResult>)
    ensures r.Success? <==>
      && Act(e.world, action).Success?
      && Act(e.world, action).value.2.agentNode in e.world.nav.dist
      && StationsCover(e.world.stations)
    ensures r.Failure? && Act(e.world, action).Success? ==> r.error == "KeyError"
    ensures Act(e.world, action).Success? && Act(e.world, action).value.2.agentNode !in e.world.nav.dist ==>
      r == Failure("KeyError")
    ensures r.Success? ==>
      var (time, out, acted) := Act(e.world, action).value;
      var (expired, w') := TickTime(acted, time, draws);
      && r.value.timePassed == time && r.value.outcome == out
      && r.value.env.world == w' && r.value.expired == expired
      && r.value.env.world.globalTime == e.world.globalTime + Engine.Max(time, 0)
      && r.value.env.history == e.history + [GetSnapshot(w')]
      && !r.value.terminated
      && (r.value.truncated <==> w'.globalTime >= MaxSteps)
  {
    var (time, out, acted) :- Act(e.world, action);
    ActKeepsShape(e.world, action);
    var (expired, w') := TickTime(acted, time, draws);
    CoverSameIds(w'.stations, e.world.stations);
    match ObserveError(w')
    case Some(err) => Failure(err)
    case None =>
      Success(StepResult(Env(w', e.history + [GetSnapshot(w')]), time, expired, out, false, w'.globalTime >= MaxSteps))
  }

  /** Acting keeps the distance table and the node id at every station position. */
  lemma ActKeepsShape(w: World, action: int)
    requires Act(w, action).Success?
    ensures Act(w, action).value.2.nav == w.nav
    ensures |Act(w, action).value.2.stations| == |w.stations|
    ensures forall j :: 0 <= j < |w.stations| ==> Act(w, action).value.2.stations[j].nodeId == w.stations[j].nodeId
  {
  }

  // ---- Invariants ----------------------------------------------------------

  /**
   * A world the environment can reach by legal actions: the consistency
   * invariant, both capacity limits, one station per node id 0 .. 5 in
   * order, the agent on a node, and a distance row for every node.
   */
  predicate Valid(w: World) {
    && Consistent(w)
    && |w.inventory| <= MaxInventory && |w.orders| <= MaxOrders
    && |w.stations| == NumNodes
    && (forall i :: 0 <= i < |w.stations| ==> w.stations[i].nodeId == i)
    && 0 <= w.agentNode < NumNodes
    && (forall u :: 0 <= u < NumNodes ==> u in w.nav.dist)
    && (forall u :: u in w.nav.dist ==> 0 <= u < NumNodes)
  }

  lemma StationAtIndexed(w: World)
    requires |w.stations| == NumNodes
    requires forall i :: 0 <= i < |w.stations| ==> w.stations[i].nodeId == i
    requires 0 <= w.agentNode < NumNodes
    ensures StationAt(w.stations, w.agentNode) == Some(w.agentNode as nat)
  {
    assert w.stations[w.agentNode].nodeId == w.agentNode;
  }

  /** The environment starts valid when the distance table is the library's. */
  lemma StartIsValid(dist: map<int, map<int, int>>, second: bool)
    requires Navigation.ShortestTable(LegacyGraph(dist))
    ensures Valid(Reset(Init(dist), second))
  {
    GraphNodes(dist);
  }

  /** Interacting keeps every part of validity; only pickups and retrievals grow the inventory, both gated on room. */
  lemma InteractKeepsValid(w: World)
    requires Valid(w)
    ensures HandleInteraction(w).Success?
    ensures Valid(HandleInteraction(w).value.1)
  {
    StationAtIndexed(w);
    var st := w.stations[w.agentNode];
    if st.stationType == StDelivery {
      DeliveryKeepsValid(w);
    } else if st.stationType == StSource {
      SourceEffect(w);
    } else if st.stationType == StProcess {
      ProcessKeepsValid(w);
    } else {
      OtherStationNoEffect(w);
    }
  }

  lemma DeliveryKeepsValid(w: World)
    requires Valid(w)
    requires StationAt(w.stations, w.agentNode) == Some(w.agentNode as nat)
    requires w.stations[w.agentNode].stationType == StDelivery
    ensures Valid(HandleInteraction(w).value.1)
  {
    var d := Deliver(w.inventory, w.orders);
    assert HandleInteraction(w).value.1 == w.(inventory := d.0, orders := d.1);
    ShrinkKeepsValid(w, d.0, d.1);
  }

  /** Dropping inventory items and orders, keeping the orders' relative order, keeps a world valid. */
  lemma ShrinkKeepsValid(w: World, inv: seq<Item>, orders: seq<Order>)
    requires Valid(w)
    requires |inv| <= |w.inventory| && multiset(inv) <= multiset(w.inventory)
    requires |orders| <= |w.orders| && multiset(orders) <= multiset(w.orders)
    requires Engine.IdsIncreasing(orders)
    ensures Valid(w.(inventory := inv, orders := orders))
  {
    OrdersSubsetConsistent(w.orders, orders, w.orderCounter);
    ItemsSubsetBounded(w.inventory, inv, w.itemUidCounter);
  }

  lemma ProcessKeepsValid(w: World)
    requires Valid(w)
    requires StationAt(w.stations, w.agentNode) == Some(w.agentNode as nat)
    requires w.stations[w.agentNode].stationType == StProcess
    ensures Valid(HandleInteraction(w).value.1)
  {
    var st := w.stations[w.agentNode];
    var w' := HandleInteraction(w).value.1;
    if st.heldItem.Some? && !st.isBusy {
      if |w.inventory| < MaxInventory {
        assert w'.inventory == w.inventory + [st.heldItem.value];
        assert w'.stations == w.stations[w.agentNode := st.(heldItem := None)];
        assert w'.orders == w.orders && w'.itemUidCounter == w.itemUidCounter;
      }
    } else if st.heldItem.None? && FirstCookable(w.inventory, st.name).Some? {
      var i := FirstCookable(w.inventory, st.name).value;
      var rec := Recipes[(w.inventory[i].typeId, st.name)];
      var cooked := w.inventory[i].(typeId := rec.output);
      assert w' == w.(inventory := Engine.RemoveAt(w.inventory, i),
                      stations := w.stations[w.agentNode := LE.StartProcessing(st.(heldItem := Some(cooked)), rec.time)]);
      assert cooked.uid <= w.itemUidCounter;
      forall j | 0 <= j < |w'.inventory| ensures w'.inventory[j].uid <= w'.itemUidCounter {
        if j < i { assert w'.inventory[j] == w.inventory[j]; } else { assert w'.inventory[j] == w.inventory[j + 1]; }
      }
    }
  }

  /** Orders drawn from a consistent list, in any sub-multiset that keeps their order, stay within the counter. */
  lemma OrdersSubsetConsistent(orders: seq<Order>, fewer: seq<Order>, counter: int)
    requires multiset(fewer) <= multiset(orders)
    requires forall i :: 0 <= i < |orders| ==> 1 <= orders[i].orderId <= counter
    ensures forall i :: 0 <= i < |fewer| ==> 1 <= fewer[i].orderId <= counter
  {
    forall i | 0 <= i < |fewer| ensures 1 <= fewer[i].orderId <= counter {
      assert fewer[i] in multiset(fewer);
      assert fewer[i] in orders;
    }
  }

  lemma ItemsSubsetBounded(items: seq<Item>, fewer: seq<Item>, counter: int)
    requires multiset(fewer) <= multiset(items)
    requires forall i :: 0 <= i < |items| ==> items[i].uid <= counter
    ensures forall i :: 0 <= i < |fewer| ==> fewer[i].uid <= counter
  {
    forall i | 0 <= i < |fewer| ensures fewer[i].uid <= counter {
      assert fewer[i] in multiset(fewer);
      assert fewer[i] in items;
    }
  }

  /**
   * A step from a valid world with a non-negative action never raises and
   * leaves a valid world: the clock runs once and orders stay within the
   * limit.
   */
  lemma StepKeepsValid(e: Env, action: int, draws: int -> Engine.Draw)
    requires Valid(e.world) && action >= 0
    ensures Step(e, action, draws).Success?
    ensures Valid(Step(e, action, draws).value.env.world)
  {
    ActKeepsValid(e.world, action);
    ValidCovers(e.world);
    var a := Act(e.world, action).value;
    TickTimeKeepsValid(a.2, a.0, draws);
  }

  lemma ActKeepsValid(w: World, action: int)
    requires Valid(w) && action >= 0
    ensures Act(w, action).Success?
    ensures Valid(Act(w, action).value.2)
  {
    if action == NumNodes {
      InteractKeepsValid(w);
    }
  }

  lemma TickTimeKeepsValid(w: World, seconds: int, draws: int -> Engine.Draw)
    requires Valid(w)
    ensures Valid(TickTime(w, seconds, draws).1)
  {
    TickTimeConsistent(w, seconds, draws);
  }

  /**
   * From a world the observation can read, a move to the agent's own node
   * costs one tick and moves nothing, and an action above interact costs no
   * time at all.
   */
  lemma StepTime(e: Env, action: int, draws: int -> Engine.Draw)
    ensures action < NumNodes && action == e.world.agentNode && ObserveError(e.world).None? ==>
      && Step(e, action, draws).Success?
      && Step(e, action, draws).value.timePassed == 1
      && Step(e, action, draws).value.env.world == TickTime(e.world, 1, draws).1
    ensures action > NumNodes && ObserveError(e.world).None? ==>
      && Step(e, action, draws).Success?
      && Step(e, action, draws).value.timePassed == 0
      && Step(e, action, draws).value.env.world == e.world
      && |Step(e, action, draws).value.env.history| == |e.history| + 1
    ensures action == NumNodes && Step(e, action, draws).Success? ==>
      Step(e, action, draws).value.timePassed == 1
  {
  }

  /**
   * A negative action counts as a move: from a valid world it sends the agent
   * to a node that has no station and no distance row, so the observation at
   * the end of the step raises a KeyError. The world it leaves behind (the
   * source mutates it before raising) cannot interact either.
   */
  lemma NegativeActionStrandsAgent(e: Env, draws: int -> Engine.Draw)
    requires Valid(e.world)
    ensures Act(e.world, -1).Success?
    ensures Step(e, -1, draws) == Failure("KeyError")
    ensures var a := Act(e.world, -1).value;
      var w1 := TickTime(a.2, a.0, draws).1;
      && w1.agentNode == -1
      && Act(w1, NumNodes).Failure?
  {
    NegativeMoveRelocates(e.world, draws);
    var a := Act(e.world, -1).value;
    StrandedInteractFails(TickTime(a.2, a.0, draws).1);
  }

  lemma NegativeMoveRelocates(w: World, draws: int -> Engine.Draw)
    requires Valid(w)
    ensures Act(w, -1).Success?
    ensures Act(w, -1).value.2.agentNode !in w.nav.dist
    ensures var a := Act(w, -1).value;
      var w1 := TickTime(a.2, a.0, draws).1;
      && w1.agentNode == -1
      && forall j :: 0 <= j < |w1.stations| ==> w1.stations[j].nodeId == j
  {
    assert w.agentNode in w.nav.dist;
    var a := Act(w, -1).value;
    assert a.2 == w.(agentNode := -1);
  }

  /** With the agent off every station node, interacting raises. */
  lemma StrandedInteractFails(w: World)
    requires forall j :: 0 <= j < |w.stations| ==> w.stations[j].nodeId == j
    requires w.agentNode < 0
    ensures Act(w, NumNodes).Failure?
  {
    assert StationAt(w.stations, w.agentNode).None?;
    assert HandleInteraction(w).Failure?;
  }
}
