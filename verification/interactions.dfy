/**
 * The interaction strategies (src/kitchen_rl/logic/interactions.py): a pure
 * dispatch on the station's type label that decides whether an interact
 * succeeds and encodes what it means as an outcome string. Nothing here
 * changes the station, the inventory or the orders.
 */
module Interactions {
  import opened Wrappers
  import opened Text
  import opened Entities
  import opened KitchenConfig

  /** What a successful interaction asks the engine to do. */
  datatype Intent =
    | Pickup(source: Option<int>)
    | Retrieve
    | Place(index: int, output: int, duration: int)
    | Deliver(index: int, orderId: int)

  /** Python's rendering of an optional int in an f-string. */
  function OptionText(o: Option<int>): string {
    match o
    case None => "None"
    case Some(v) => IntToString(v)
  }

  /** The outcome strings `Pickup_<id>`, `Retrieve_Processed`, `Place_<idx>_<out>_<time>`, `Deliver_<idx>_<orderId>`. */
  function Encode(i: Intent): string {
    match i
    case Pickup(s) => "Pickup_" + OptionText(s)
    case Retrieve => "Retrieve_Processed"
    case Place(idx, out, time) => "Place_" + IntToString(idx) + "_" + IntToString(out) + "_" + IntToString(time)
    case Deliver(idx, orderId) => "Deliver_" + IntToString(idx) + "_" + IntToString(orderId)
  }

  const InventoryFull := "Inventory Full"
  const NoValidRecipeItem := "No Valid Recipe Item"
  const StationBusy := "Station Busy"
  const WrongItem := "Wrong Item"
  const NothingToInteract := "Nothing to interact with"

  /** `InteractionResult`: a success flag and the outcome text. */
  datatype InteractionResult = InteractionResult(success: bool, info: string)

  predicate RecipeFits(r: Recipe, typeId: int, stationName: string) {
    r.input == typeId && r.station == stationName
  }

  /** Index of the first recipe for this item type at this station. */
  function FirstRecipe(recipes: seq<Recipe>, typeId: int, stationName: string): (k: Option<nat>)
    ensures k.Some? ==> k.value < |recipes| && RecipeFits(recipes[k.value], typeId, stationName)
    ensures k.Some? ==> forall j :: 0 <= j < k.value ==> !RecipeFits(recipes[j], typeId, stationName)
    ensures k.None? ==> forall j :: 0 <= j < |recipes| ==> !RecipeFits(recipes[j], typeId, stationName)
  {
    if |recipes| == 0 then None
    else if RecipeFits(recipes[0], typeId, stationName) then Some(0)
    else match FirstRecipe(recipes[1..], typeId, stationName)
      case None => None
      case Some(k) => Some(k + 1)
  }

  /** Some inventory item has a recipe at this station. */
  ghost predicate CanPlace(inv: seq<Item>, recipes: seq<Recipe>, stationName: string) {
    exists i, j :: 0 <= i < |inv| && 0 <= j < |recipes| && RecipeFits(recipes[j], inv[i].typeId, stationName)
  }

  /**
   * (i, j) is the placement the strategy picks: i is the least inventory index
   * with a recipe at this station, j the first such recipe for item i.
   */
  ghost predicate LeastPlacement(inv: seq<Item>, recipes: seq<Recipe>, stationName: string, i: int, j: int) {
    && 0 <= i < |inv| && 0 <= j < |recipes|
    && RecipeFits(recipes[j], inv[i].typeId, stationName)
    && (forall j' :: 0 <= j' < j ==> !RecipeFits(recipes[j'], inv[i].typeId, stationName))
    && (forall i', j' :: 0 <= i' < i && 0 <= j' < |recipes| ==> !RecipeFits(recipes[j'], inv[i'].typeId, stationName))
  }

  /** The first inventory item, scanning from `from`, that some recipe at this station accepts. */
  function FindPlacement(inv: seq<Item>, recipes: seq<Recipe>, stationName: string, from: nat): (r: Option<(nat, nat)>)
    requires from <= |inv|
    requires forall i', j' :: 0 <= i' < from && 0 <= j' < |recipes| ==> !RecipeFits(recipes[j'], inv[i'].typeId, stationName)
    ensures r.Some? ==> LeastPlacement(inv, recipes, stationName, r.value.0, r.value.1)
    ensures r.None? ==> !CanPlace(inv, recipes, stationName)
    decreases |inv| - from
  {
    if from == |inv| then None
    else match FirstRecipe(recipes, inv[from].typeId, stationName)
      case Some(j) => Some((from, j))
      case None => FindPlacement(inv, recipes, stationName, from + 1)
  }

  /** Some inventory item matches some order. */
  ghost predicate CanDeliver(inv: seq<Item>, orders: seq<Order>) {
    exists i, k :: 0 <= i < |inv| && 0 <= k < |orders| && orders[k].itemType == inv[i].typeId
  }

  /** (i, k) is the delivery the strategy picks: least matching item, then its first matching order. */
  ghost predicate LeastDelivery(inv: seq<Item>, orders: seq<Order>, i: int, k: int) {
    && 0 <= i < |inv| && 0 <= k < |orders|
    && orders[k].itemType == inv[i].typeId
    && (forall k' :: 0 <= k' < k ==> orders[k'].itemType != inv[i].typeId)
    && (forall i', k' :: 0 <= i' < i && 0 <= k' < |orders| ==> orders[k'].itemType != inv[i'].typeId)
  }

  /** Index of the first order for this item type. */
  function FirstOrder(orders: seq<Order>, typeId: int): (k: Option<nat>)
    ensures k.Some? ==> k.value < |orders| && orders[k.value].itemType == typeId
    ensures k.Some? ==> forall j :: 0 <= j < k.value ==> orders[j].itemType != typeId
    ensures k.None? ==> forall j :: 0 <= j < |orders| ==> orders[j].itemType != typeId
  {
    if |orders| == 0 then None
    else if orders[0].itemType == typeId then Some(0)
    else match FirstOrder(orders[1..], typeId)
      case None => None
      case Some(k) => Some(k + 1)
  }

  function FindDelivery(inv: seq<Item>, orders: seq<Order>, from: nat): (r: Option<(nat, nat)>)
    requires from <= |inv|
    requires forall i', k' :: 0 <= i' < from && 0 <= k' < |orders| ==> orders[k'].itemType != inv[i'].typeId
    ensures r.Some? ==> LeastDelivery(inv, orders, r.value.0, r.value.1)
    ensures r.None? ==> !CanDeliver(inv, orders)
    decreases |inv| - from
  {
    if from == |inv| then None
    else match FirstOrder(orders, inv[from].typeId)
      case Some(k) => Some((from, k))
      case None => FindDelivery(inv, orders, from + 1)
  }

  /** `SourceInteraction.handle`. */
  function SourceHandle(station: StationState, inv: seq<Item>, maxInventory: int): (r: InteractionResult)
    ensures r.success <==> |inv| < maxInventory
    ensures !r.success ==> r.info == InventoryFull
    ensures r.success ==> r.info == Encode(Pickup(station.sourceItemId))
  {
    if |inv| >= maxInventory then InteractionResult(false, InventoryFull)
    else InteractionResult(true, Encode(Pickup(station.sourceItemId)))
  }

  /** `ProcessInteraction.handle`: retrieve a finished item, else place an item on an empty station. */
  function ProcessHandle(station: StationState, inv: seq<Item>, recipes: seq<Recipe>, maxInventory: int): (r: InteractionResult)
    ensures station.heldItem.Some? && !station.isBusy ==>
      && (r.success <==> |inv| < maxInventory)
      && (r.success ==> r.info == Encode(Retrieve))
      && (!r.success ==> r.info == InventoryFull)
    ensures station.heldItem.None? ==>
      && (r.success <==> CanPlace(inv, recipes, station.name))
      && (r.success ==> exists i, j :: LeastPlacement(inv, recipes, station.name, i, j)
                                && r.info == Encode(Place(i, recipes[j].output, recipes[j].time)))
      && (!r.success ==> r.info == NoValidRecipeItem)
    ensures station.heldItem.Some? && station.isBusy ==> r == InteractionResult(false, StationBusy)
  {
    if station.heldItem.Some? && !station.isBusy then
      if |inv| >= maxInventory then InteractionResult(false, InventoryFull)
      else InteractionResult(true, Encode(Retrieve))
    else if station.heldItem.None? then
      match FindPlacement(inv, recipes, station.name, 0)
      case Some((i, j)) => InteractionResult(true, Encode(Place(i, recipes[j].output, recipes[j].time)))
      case None => InteractionResult(false, NoValidRecipeItem)
    else
      InteractionResult(false, StationBusy)
  }

  /** `DeliveryInteraction.handle`: capacity is never consulted. */
  function DeliveryHandle(inv: seq<Item>, orders: seq<Order>): (r: InteractionResult)
    ensures r.success <==> CanDeliver(inv, orders)
    ensures r.success ==> exists i, k :: LeastDelivery(inv, orders, i, k)
                                   && r.info == Encode(Deliver(i, orders[k].orderId))
    ensures !r.success ==> r.info == WrongItem
  {
    match FindDelivery(inv, orders, 0)
    case Some((i, k)) => InteractionResult(true, Encode(Deliver(i, orders[k].orderId)))
    case None => InteractionResult(false, WrongItem)
  }

  /** The strategy table: "floor" maps to no strategy, and so does every unlisted label. */
  datatype Strategy = SourceStrategy | ProcessStrategy | DeliveryStrategy

  function StrategyFor(stationType: string): Option<Strategy> {
    if stationType == "source" then Some(SourceStrategy)
    else if stationType == "process" then Some(ProcessStrategy)
    else if stationType == "delivery" then Some(DeliveryStrategy)
    else None
  }

  /** `InteractionManager.attempt_interaction`. */
  function AttemptInteraction(station: StationState, inv: seq<Item>, orders: seq<Order>, config: Config): (r: InteractionResult)
    ensures StrategyFor(station.stationType).None? ==> r == InteractionResult(false, NothingToInteract)
    ensures station.stationType == "source" ==> r == SourceHandle(station, inv, config.sim.maxInventory)
    ensures station.stationType == "process" ==> r == ProcessHandle(station, inv, config.recipes, config.sim.maxInventory)
    ensures station.stationType == "delivery" ==> r == DeliveryHandle(inv, orders)
  {
    match StrategyFor(station.stationType)
    case None => InteractionResult(false, NothingToInteract)
    case Some(SourceStrategy) => SourceHandle(station, inv, config.sim.maxInventory)
    case Some(ProcessStrategy) => ProcessHandle(station, inv, config.recipes, config.sim.maxInventory)
    case Some(DeliveryStrategy) => DeliveryHandle(inv, orders)
  }

  /** The placement a successful place names is unique: the strategy's choice is determined. */
  lemma LeastPlacementUnique(inv: seq<Item>, recipes: seq<Recipe>, name: string, i: int, j: int, i2: int, j2: int)
    requires LeastPlacement(inv, recipes, name, i, j) && LeastPlacement(inv, recipes, name, i2, j2)
    ensures i == i2 && j == j2
  {
  }

  /**
   * On success every encoded index names an inventory item and every encoded
   * order id belongs to a current order.
   */
  lemma SuccessNamesValidTargets(station: StationState, inv: seq<Item>, orders: seq<Order>, config: Config)
    requires AttemptInteraction(station, inv, orders, config).success
    ensures forall i, o, t :: AttemptInteraction(station, inv, orders, config).info == Encode(Place(i, o, t)) ==> 0 <= i < |inv|
    ensures forall i, id :: AttemptInteraction(station, inv, orders, config).info == Encode(Deliver(i, id)) ==>
      0 <= i < |inv| && exists k :: 0 <= k < |orders| && orders[k].orderId == id
  {
    var r := AttemptInteraction(station, inv, orders, config);
    forall i, o, t | r.info == Encode(Place(i, o, t)) ensures 0 <= i < |inv| {
      EncodeInjective(Place(i, o, t), DecodedIntent(station, inv, orders, config));
    }
    forall i, id | r.info == Encode(Deliver(i, id))
      ensures 0 <= i < |inv| && exists k :: 0 <= k < |orders| && orders[k].orderId == id
    {
      EncodeInjective(Deliver(i, id), DecodedIntent(station, inv, orders, config));
    }
  }

  /** The intent behind a successful attempt (a proof device: the witness of the existentials above). */
  ghost function DecodedIntent(station: StationState, inv: seq<Item>, orders: seq<Order>, config: Config): (it: Intent)
    requires AttemptInteraction(station, inv, orders, config).success
    ensures Encode(it) == AttemptInteraction(station, inv, orders, config).info
    ensures it.Place? ==> 0 <= it.index < |inv|
    ensures it.Deliver? ==> 0 <= it.index < |inv| && exists k :: 0 <= k < |orders| && orders[k].orderId == it.orderId
    ensures it.Pickup? ==> station.stationType == "source" && it.source == station.sourceItemId
    ensures it.Retrieve? ==> station.heldItem.Some?
  {
    var r := AttemptInteraction(station, inv, orders, config);
    if station.stationType == "source" then Pickup(station.sourceItemId)
    else if station.stationType == "process" then
      if station.heldItem.Some? then Retrieve
      else
        var i, j :| LeastPlacement(inv, config.recipes, station.name, i, j)
                 && r.info == Encode(Place(i, config.recipes[j].output, config.recipes[j].time));
        Place(i, config.recipes[j].output, config.recipes[j].time)
    else
      var i, k :| LeastDelivery(inv, orders, i, k) && r.info == Encode(Deliver(i, orders[k].orderId));
      Deliver(i, orders[k].orderId)
  }

  /** Distinct intents have distinct outcome strings. */
  lemma EncodeInjective(a: Intent, b: Intent)
    requires Encode(a) == Encode(b)
    ensures a == b
  {
    DecodeEncode(a);
    DecodeEncode(b);
  }

  /** Reads an outcome string back into the intent that produced it (the reference decoder). */
  function DecodeIntent(s: string): Option<Intent> {
    var parts := Split(s, '_');
    if parts[0] == "Pickup" && |parts| == 2 then
      if parts[1] == "None" then Some(Pickup(None))
      else match ParseInt(parts[1])
        case Some(v) => if IntToString(v) == parts[1] then Some(Pickup(Some(v))) else None
        case None => None
    else if parts == ["Retrieve", "Processed"] then Some(Retrieve)
    else if parts[0] == "Place" && |parts| == 4 then
      match (ParseInt(parts[1]), ParseInt(parts[2]), ParseInt(parts[3]))
      case (Some(i), Some(o), Some(t)) =>
        if IntToString(i) == parts[1] && IntToString(o) == parts[2] && IntToString(t) == parts[3]
        then Some(Place(i, o, t)) else None
      case _ => None
    else if parts[0] == "Deliver" && |parts| == 3 then
      match (ParseInt(parts[1]), ParseInt(parts[2]))
      case (Some(i), Some(k)) =>
        if IntToString(i) == parts[1] && IntToString(k) == parts[2] then Some(Deliver(i, k)) else None
      case _ => None
    else None
  }

  lemma DecodeEncode(it: Intent)
    ensures DecodeIntent(Encode(it)) == Some(it)
  {
    match it {
      case Pickup(src) => DecodePickup(src);
      case Retrieve => DecodeRetrieve();
      case Place(i, o, t) => DecodePlace(i, o, t);
      case Deliver(i, k) => DecodeDeliver(i, k);
    }
  }

  lemma DecodePickup(src: Option<int>)
    ensures DecodeIntent(Encode(Pickup(src))) == Some(Pickup(src))
  {
    var parts := ["Pickup", OptionText(src)];
    assert Encode(Pickup(src)) == Join(parts, '_');
    SplitJoin(parts, '_');
    if src.Some? {
      ParseIntOfIntToString(src.value);
    }
  }

  lemma DecodeRetrieve()
    ensures DecodeIntent(Encode(Retrieve)) == Some(Retrieve)
  {
    var parts := ["Retrieve", "Processed"];
    assert Encode(Retrieve) == Join(parts, '_');
    SplitJoin(parts, '_');
  }

  lemma DecodePlace(i: int, o: int, t: int)
    ensures DecodeIntent(Encode(Place(i, o, t))) == Some(Place(i, o, t))
  {
    var parts := ["Place", IntToString(i), IntToString(o), IntToString(t)];
    EncodePlaceJoin(i, o, t);
    SplitJoin(parts, '_');
    DecodePlaceParts(Encode(Place(i, o, t)), i, o, t);
  }

  lemma EncodePlaceJoin(i: int, o: int, t: int)
    ensures Encode(Place(i, o, t)) == Join(["Place", IntToString(i), IntToString(o), IntToString(t)], '_')
  {
    var parts := ["Place", IntToString(i), IntToString(o), IntToString(t)];
    assert Join(parts[3..], '_') == IntToString(t);
    assert Join(parts[2..], '_') == IntToString(o) + "_" + IntToString(t);
    assert Join(parts[1..], '_') == IntToString(i) + "_" + IntToString(o) + "_" + IntToString(t);
  }

  lemma DecodePlaceParts(s: string, i: int, o: int, t: int)
    requires Split(s, '_') == ["Place", IntToString(i), IntToString(o), IntToString(t)]
    ensures DecodeIntent(s) == Some(Place(i, o, t))
  {
    ParseIntOfIntToString(i);
    ParseIntOfIntToString(o);
    ParseIntOfIntToString(t);
  }

  lemma DecodeDeliver(i: int, k: int)
    ensures DecodeIntent(Encode(Deliver(i, k))) == Some(Deliver(i, k))
  {
    var parts := ["Deliver", IntToString(i), IntToString(k)];
    EncodeDeliverJoin(i, k);
    SplitJoin(parts, '_');
    DecodeDeliverParts(Encode(Deliver(i, k)), i, k);
  }

  lemma EncodeDeliverJoin(i: int, k: int)
    ensures Encode(Deliver(i, k)) == Join(["Deliver", IntToString(i), IntToString(k)], '_')
  {
    var parts := ["Deliver", IntToString(i), IntToString(k)];
    assert Join(parts[2..], '_') == IntToString(k);
    assert Join(parts[1..], '_') == IntToString(i) + "_" + IntToString(k);
  }

  lemma DecodeDeliverParts(s: string, i: int, k: int)
    requires Split(s, '_') == ["Deliver", IntToString(i), IntToString(k)]
    ensures DecodeIntent(s) == Some(Deliver(i, k))
  {
    ParseIntOfIntToString(i);
    ParseIntOfIntToString(k);
  }
}
