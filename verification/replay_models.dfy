/**
 * The replay records (src/kitchen_rl/recording/models.py) and their
 * dictionary encodings, as they appear in the log. Each encoder has a
 * reference decoder here, and the round-trip lemmas say exactly which
 * records survive being written and read back.
 */
module ReplayModels {
  import opened Wrappers
  import opened Text
  import opened JsonValues

  datatype ReplayMetadata = ReplayMetadata(
    version: string,
    episodeId: string,
    configPath: string,
    startTime: string,
    totalTicks: int,
    finalScore: real,
    mapLayout: map<int, Json>)

  datatype ItemState = ItemState(typeId: int, uid: int)

  datatype StationRecord = StationRecord(
    nodeId: int,
    name: string,
    stationType: string,
    heldItem: Option<ItemState>,
    isBusy: bool,
    timer: int)

  datatype OrderState = OrderState(orderId: int, itemType: int, timeRemaining: int, maxTime: int)

  datatype StateSnapshot = StateSnapshot(
    tick: int,
    agentNode: int,
    inventory: seq<ItemState>,
    stations: map<int, StationRecord>,
    orders: seq<OrderState>,
    completedOrders: int)

  datatype ReplayEvent = ReplayEvent(
    tick: int,
    eventType: string,
    duration: int,
    action: Option<string>,
    target: Option<int>,
    result: Option<string>,
    snapshot: Option<StateSnapshot>,
    orderId: Option<int>,
    itemType: Option<int>)

  /** Python truthiness of an optional string: present and non-empty. */
  predicate Truthy(s: Option<string>) {
    s.Some? && s.value != ""
  }

  // ---- Encoders (`to_dict`, then JSON) -------------------------------------

  function ItemJson(i: ItemState): Json {
    JObj(map["type_id" := JInt(i.typeId), "uid" := JInt(i.uid)])
  }

  function StationJson(s: StationRecord): Json {
    JObj(map[
      "node_id" := JInt(s.nodeId),
      "name" := JStr(s.name),
      "station_type" := JStr(s.stationType),
      "held_item" := if s.heldItem.Some? then ItemJson(s.heldItem.value) else JNull,
      "is_busy" := JBool(s.isBusy),
      "timer" := JInt(s.timer)])
  }

  function OrderJson(o: OrderState): Json {
    JObj(map[
      "order_id" := JInt(o.orderId),
      "item_type" := JInt(o.itemType),
      "time_remaining" := JInt(o.timeRemaining),
      "max_time" := JInt(o.maxTime)])
  }

  function ItemsJson(inv: seq<ItemState>): (js: seq<Json>)
    ensures |js| == |inv| && forall i :: 0 <= i < |inv| ==> js[i] == ItemJson(inv[i])
  {
    if |inv| == 0 then [] else [ItemJson(inv[0])] + ItemsJson(inv[1..])
  }

  function OrdersJson(orders: seq<OrderState>): (js: seq<Json>)
    ensures |js| == |orders| && forall i :: 0 <= i < |orders| ==> js[i] == OrderJson(orders[i])
  {
    if |orders| == 0 then [] else [OrderJson(orders[0])] + OrdersJson(orders[1..])
  }

  /** The station table with each record encoded, still keyed by node id. */
  function StationJsons(stations: map<int, StationRecord>): map<int, Json> {
    map k | k in stations :: StationJson(stations[k])
  }

  function StationsJson(stations: map<int, StationRecord>): map<string, Json> {
    IntKeyed(StationJsons(stations))
  }

  function SnapshotJson(s: StateSnapshot): Json {
    JObj(map[
      "tick" := JInt(s.tick),
      "agent_node" := JInt(s.agentNode),
      "inventory" := JArr(ItemsJson(s.inventory)),
      "stations" := JObj(StationsJson(s.stations)),
      "orders" := JArr(OrdersJson(s.orders)),
      "completed_orders" := JInt(s.completedOrders)])
  }

  /** The keys an event dictionary can have. */
  const EventKeys: set<string> := {"tick", "type", "duration", "action", "target", "result", "snapshot", "order_id", "item_type"}

  /** The entry `to_dict` writes under `key`, or None when it leaves the key out. */
  function EventEntry(e: ReplayEvent, key: string): Option<Json> {
    if key == "tick" then Some(JInt(e.tick))
    else if key == "type" then Some(JStr(e.eventType))
    else if key == "duration" then Some(JInt(e.duration))
    else if key == "action" then (if Truthy(e.action) then Some(JStr(e.action.value)) else None)
    else if key == "target" then (if e.target.Some? then Some(JInt(e.target.value)) else None)
    else if key == "result" then (if Truthy(e.result) then Some(JStr(e.result.value)) else None)
    else if key == "snapshot" then (if e.snapshot.Some? then Some(SnapshotJson(e.snapshot.value)) else None)
    else if key == "order_id" then (if e.orderId.Some? then Some(JInt(e.orderId.value)) else None)
    else if key == "item_type" then (if e.itemType.Some? then Some(JInt(e.itemType.value)) else None)
    else None
  }

  /** `ReplayEvent.to_dict`: every key whose entry is written, and no other. */
  function EventJson(e: ReplayEvent): (j: Json)
    ensures j.JObj? && j.fields.Keys <= EventKeys
    ensures forall key :: Field(j, key) == EventEntry(e, key)
  {
    JObj(map k | k in EventKeys && EventEntry(e, k).Some? :: EventEntry(e, k).value)
  }

  /**
   * The shape of an event dictionary: tick, type and duration always; action
   * and result only when non-empty; target, order id and item type whenever
   * present, even when 0; the snapshot whenever present.
   */
  lemma EventDictShape(e: ReplayEvent)
    ensures var j := EventJson(e);
      && Field(j, "tick") == Some(JInt(e.tick))
      && Field(j, "type") == Some(JStr(e.eventType))
      && Field(j, "duration") == Some(JInt(e.duration))
      && ("action" in j.fields <==> Truthy(e.action))
      && ("result" in j.fields <==> Truthy(e.result))
      && ("target" in j.fields <==> e.target.Some?)
      && ("snapshot" in j.fields <==> e.snapshot.Some?)
      && ("order_id" in j.fields <==> e.orderId.Some?)
      && ("item_type" in j.fields <==> e.itemType.Some?)
  {
    var j := EventJson(e);
    assert Field(j, "action") == EventEntry(e, "action");
    assert Field(j, "result") == EventEntry(e, "result");
    assert Field(j, "target") == EventEntry(e, "target");
    assert Field(j, "snapshot") == EventEntry(e, "snapshot");
    assert Field(j, "order_id") == EventEntry(e, "order_id");
    assert Field(j, "item_type") == EventEntry(e, "item_type");
  }

  function MetadataJson(m: ReplayMetadata): Json {
    JObj(map[
      "version" := JStr(m.version),
      "episode_id" := JStr(m.episodeId),
      "config_path" := JStr(m.configPath),
      "start_time" := JStr(m.startTime),
      "total_ticks" := JInt(m.totalTicks),
      "final_score" := JReal(m.finalScore),
      "map_layout" := JObj(IntKeyed(m.mapLayout))])
  }

  /** Item and order dictionaries carry exactly their fields. */
  lemma ItemOrderDictShape(i: ItemState, o: OrderState)
    ensures ItemJson(i).JObj? && ItemJson(i).fields.Keys == {"type_id", "uid"}
    ensures OrderJson(o).JObj? && OrderJson(o).fields.Keys == {"order_id", "item_type", "time_remaining", "max_time"}
  {
  }

  /** A station dictionary's `held_item` is null exactly when nothing is held, else the item's dictionary. */
  lemma StationDictShape(s: StationRecord)
    ensures StationJson(s).JObj?
    ensures StationJson(s).fields.Keys == {"node_id", "name", "station_type", "held_item", "is_busy", "timer"}
    ensures StationJson(s).fields["held_item"] == JNull <==> s.heldItem.None?
    ensures s.heldItem.Some? ==> StationJson(s).fields["held_item"] == ItemJson(s.heldItem.value)
  {
  }

  /**
   * A snapshot dictionary keeps the inventory and the orders as arrays of the
   * same length and order, and writes one entry per station under the
   * station id's text.
   */
  lemma SnapshotDictShape(s: StateSnapshot)
    ensures SnapshotJson(s).JObj?
    ensures SnapshotJson(s).fields.Keys == {"tick", "agent_node", "inventory", "stations", "orders", "completed_orders"}
    ensures var inv := SnapshotJson(s).fields["inventory"];
      inv.JArr? && |inv.items| == |s.inventory| && forall i :: 0 <= i < |s.inventory| ==> inv.items[i] == ItemJson(s.inventory[i])
    ensures var ords := SnapshotJson(s).fields["orders"];
      ords.JArr? && |ords.items| == |s.orders| && forall i :: 0 <= i < |s.orders| ==> ords.items[i] == OrderJson(s.orders[i])
    ensures SnapshotJson(s).fields["stations"] == JObj(StationsJson(s.stations))
  {
  }

  // ---- Reference decoders --------------------------------------------------

  function ItemFrom(j: Json): Option<ItemState> {
    var t :- AsInt(Field(j, "type_id"));
    var u :- AsInt(Field(j, "uid"));
    Some(ItemState(t, u))
  }

  function OrderFrom(j: Json): Option<OrderState> {
    var id :- AsInt(Field(j, "order_id"));
    var t :- AsInt(Field(j, "item_type"));
    var rem :- AsInt(Field(j, "time_remaining"));
    var mx :- AsInt(Field(j, "max_time"));
    Some(OrderState(id, t, rem, mx))
  }

  function HeldFrom(j: Option<Json>): Option<Option<ItemState>> {
    if j == Some(JNull) then Some(None)
    else if j.Some? then
      var it :- ItemFrom(j.value);
      Some(Some(it))
    else None
  }

  function StationFrom(j: Json): Option<StationRecord> {
    var id :- AsInt(Field(j, "node_id"));
    var name :- AsStr(Field(j, "name"));
    var kind :- AsStr(Field(j, "station_type"));
    var held :- HeldFrom(Field(j, "held_item"));
    var busy :- AsBool(Field(j, "is_busy"));
    var timer :- AsInt(Field(j, "timer"));
    Some(StationRecord(id, name, kind, held, busy, timer))
  }

  function ItemsFrom(js: seq<Json>): Option<seq<ItemState>> {
    if |js| == 0 then Some([])
    else
      var first :- ItemFrom(js[0]);
      var rest :- ItemsFrom(js[1..]);
      Some([first] + rest)
  }

  function OrdersFrom(js: seq<Json>): Option<seq<OrderState>> {
    if |js| == 0 then Some([])
    else
      var first :- OrderFrom(js[0]);
      var rest :- OrdersFrom(js[1..]);
      Some([first] + rest)
  }

  function DecodeStations(m: map<int, Json>): Option<map<int, StationRecord>> {
    if forall k :: k in m ==> StationFrom(m[k]).Some? then
      Some(map k | k in m :: StationFrom(m[k]).value)
    else None
  }

  function StationsFrom(o: map<string, Json>): Option<map<int, StationRecord>> {
    var m :- IntKeyedFrom(o);
    DecodeStations(m)
  }

  function SnapshotFrom(j: Json): Option<StateSnapshot> {
    SnapshotOf(Field(j, "tick"), Field(j, "agent_node"), Field(j, "inventory"),
               Field(j, "stations"), Field(j, "orders"), Field(j, "completed_orders"))
  }

  /** Decodes a snapshot from its six fields, each possibly missing. */
  function SnapshotOf(tick: Option<Json>, agent: Option<Json>, inv: Option<Json>,
                      sts: Option<Json>, ords: Option<Json>, done: Option<Json>): Option<StateSnapshot>
  {
    var t :- AsInt(tick);
    var a :- AsInt(agent);
    var d :- AsInt(done);
    if inv.Some? && inv.value.JArr? && sts.Some? && sts.value.JObj? && ords.Some? && ords.value.JArr? then
      var items :- ItemsFrom(inv.value.items);
      var stations :- StationsFrom(sts.value.fields);
      var orders :- OrdersFrom(ords.value.items);
      Some(StateSnapshot(t, a, items, stations, orders, d))
    else None
  }

  /** An optional field: absent reads as None; present must have the right shape. */
  function OptStr(j: Json, key: string): Option<Option<string>> {
    match Field(j, key)
    case None => Some(None)
    case Some(JStr(s)) => Some(Some(s))
    case Some(_) => None
  }

  function OptInt(j: Json, key: string): Option<Option<int>> {
    match Field(j, key)
    case None => Some(None)
    case Some(JInt(i)) => Some(Some(i))
    case Some(_) => None
  }

  function OptSnapshot(j: Json, key: string): Option<Option<StateSnapshot>> {
    match Field(j, key)
    case None => Some(None)
    case Some(v) =>
      var s :- SnapshotFrom(v);
      Some(Some(s))
  }

  function EventFrom(j: Json): Option<ReplayEvent> {
    var tick :- AsInt(Field(j, "tick"));
    var kind :- AsStr(Field(j, "type"));
    var duration :- AsInt(Field(j, "duration"));
    var action :- OptStr(j, "action");
    var target :- OptInt(j, "target");
    var result :- OptStr(j, "result");
    var snapshot :- OptSnapshot(j, "snapshot");
    var orderId :- OptInt(j, "order_id");
    var itemType :- OptInt(j, "item_type");
    Some(ReplayEvent(tick, kind, duration, action, target, result, snapshot, orderId, itemType))
  }

  function MetadataFrom(j: Json): Option<ReplayMetadata> {
    var version :- AsStr(Field(j, "version"));
    var id :- AsStr(Field(j, "episode_id"));
    var path :- AsStr(Field(j, "config_path"));
    var start :- AsStr(Field(j, "start_time"));
    var ticks :- AsInt(Field(j, "total_ticks"));
    var score :- AsReal(Field(j, "final_score"));
    var layout := Field(j, "map_layout");
    if layout.Some? && layout.value.JObj? then
      var m :- IntKeyedFrom(layout.value.fields);
      Some(ReplayMetadata(version, id, path, start, ticks, score, m))
    else None
  }

  // ---- Round trips ---------------------------------------------------------

  lemma ItemRoundTrip(i: ItemState)
    ensures ItemFrom(ItemJson(i)) == Some(i)
  {
  }

  lemma StationRoundTrip(s: StationRecord)
    ensures StationFrom(StationJson(s)) == Some(s)
  {
  }

  lemma OrderRoundTrip(o: OrderState)
    ensures OrderFrom(OrderJson(o)) == Some(o)
  {
  }

  lemma {:induction false} ItemsRoundTrip(inv: seq<ItemState>)
    ensures ItemsFrom(ItemsJson(inv)) == Some(inv)
    decreases |inv|
  {
    if |inv| > 0 {
      var js := ItemsJson(inv);
      ItemsRoundTrip(inv[1..]);
      ItemRoundTrip(inv[0]);
      assert js[0] == ItemJson(inv[0]) && js[1..] == ItemsJson(inv[1..]);
      assert ItemsFrom(js) == Some([inv[0]] + inv[1..]);
      assert [inv[0]] + inv[1..] == inv;
    }
  }

  lemma {:induction false} OrdersRoundTrip(orders: seq<OrderState>)
    ensures OrdersFrom(OrdersJson(orders)) == Some(orders)
    decreases |orders|
  {
    if |orders| > 0 {
      var js := OrdersJson(orders);
      OrdersRoundTrip(orders[1..]);
      OrderRoundTrip(orders[0]);
      assert js[0] == OrderJson(orders[0]) && js[1..] == OrdersJson(orders[1..]);
      assert OrdersFrom(js) == Some([orders[0]] + orders[1..]);
      assert [orders[0]] + orders[1..] == orders;
    }
  }

  lemma StationsDecodeEach(stations: map<int, StationRecord>)
    ensures forall k :: k in stations ==> StationFrom(StationJson(stations[k])) == Some(stations[k])
  {
    forall k | k in stations ensures StationFrom(StationJson(stations[k])) == Some(stations[k]) {
      StationRoundTrip(stations[k]);
    }
  }

  /** The station table survives its integer keys becoming text. */
  lemma StationsRoundTrip(stations: map<int, StationRecord>)
    ensures StationsFrom(StationsJson(stations)) == Some(stations)
  {
    IntKeyedRoundTrip(StationJsons(stations));
    DecodeStationsBack(stations);
  }

  lemma DecodeStationsBack(stations: map<int, StationRecord>)
    ensures DecodeStations(StationJsons(stations)) == Some(stations)
  {
    var js := StationJsons(stations);
    StationsDecodeEach(stations);
    assert forall k :: k in js ==> StationFrom(js[k]) == Some(stations[k]);
    var back := map k | k in js :: StationFrom(js[k]).value;
    assert back == stations;
  }

  /** A snapshot keeps its inventory and orders in order and its station key set. */
  lemma SnapshotRoundTrip(s: StateSnapshot)
    ensures SnapshotFrom(SnapshotJson(s)) == Some(s)
  {
    var j := SnapshotJson(s);
    SnapshotDictShape(s);
    assert Field(j, "tick") == Some(JInt(s.tick));
    assert Field(j, "agent_node") == Some(JInt(s.agentNode));
    assert Field(j, "completed_orders") == Some(JInt(s.completedOrders));
    assert Field(j, "inventory") == Some(JArr(ItemsJson(s.inventory)));
    assert Field(j, "stations") == Some(JObj(StationsJson(s.stations)));
    assert Field(j, "orders") == Some(JArr(OrdersJson(s.orders)));
    SnapshotPartsRoundTrip(s);
  }

  lemma SnapshotPartsRoundTrip(s: StateSnapshot)
    ensures SnapshotOf(Some(JInt(s.tick)), Some(JInt(s.agentNode)), Some(JArr(ItemsJson(s.inventory))),
                       Some(JObj(StationsJson(s.stations))), Some(JArr(OrdersJson(s.orders))),
                       Some(JInt(s.completedOrders))) == Some(s)
  {
    ItemsRoundTrip(s.inventory);
    OrdersRoundTrip(s.orders);
    StationsRoundTrip(s.stations);
    SnapshotOfDecoded(s, ItemsJson(s.inventory), StationsJson(s.stations), OrdersJson(s.orders));
  }

  lemma SnapshotOfDecoded(s: StateSnapshot, inv: seq<Json>, sts: map<string, Json>, ords: seq<Json>)
    requires ItemsFrom(inv) == Some(s.inventory)
    requires StationsFrom(sts) == Some(s.stations)
    requires OrdersFrom(ords) == Some(s.orders)
    ensures SnapshotOf(Some(JInt(s.tick)), Some(JInt(s.agentNode)), Some(JArr(inv)),
                       Some(JObj(sts)), Some(JArr(ords)), Some(JInt(s.completedOrders))) == Some(s)
  {
  }

  /** An event whose action and result are absent or non-empty is read back unchanged. */
  lemma EventRoundTrip(e: ReplayEvent)
    requires e.action != Some("") && e.result != Some("")
    ensures EventFrom(EventJson(e)) == Some(e)
  {
    var j := EventJson(e);
    EventPlainFieldsBack(e);
    EventTextFieldsBack(e);
    EventSnapshotFieldBack(e);
    EventFromFields(j, e);
  }

  lemma EventPlainFieldsBack(e: ReplayEvent)
    ensures var j := EventJson(e);
      && AsInt(Field(j, "tick")) == Some(e.tick)
      && AsStr(Field(j, "type")) == Some(e.eventType)
      && AsInt(Field(j, "duration")) == Some(e.duration)
      && OptInt(j, "target") == Some(e.target)
      && OptInt(j, "order_id") == Some(e.orderId)
      && OptInt(j, "item_type") == Some(e.itemType)
  {
  }

  lemma EventTextFieldsBack(e: ReplayEvent)
    requires e.action != Some("") && e.result != Some("")
    ensures OptStr(EventJson(e), "action") == Some(e.action)
    ensures OptStr(EventJson(e), "result") == Some(e.result)
  {
  }

  lemma EventSnapshotFieldBack(e: ReplayEvent)
    ensures OptSnapshot(EventJson(e), "snapshot") == Some(e.snapshot)
  {
    if e.snapshot.Some? {
      SnapshotRoundTrip(e.snapshot.value);
    }
  }

  /** Reading an event whose every field reads back as e's gives e. */
  lemma EventFromFields(j: Json, e: ReplayEvent)
    requires AsInt(Field(j, "tick")) == Some(e.tick)
    requires AsStr(Field(j, "type")) == Some(e.eventType)
    requires AsInt(Field(j, "duration")) == Some(e.duration)
    requires OptStr(j, "action") == Some(e.action)
    requires OptInt(j, "target") == Some(e.target)
    requires OptStr(j, "result") == Some(e.result)
    requires OptSnapshot(j, "snapshot") == Some(e.snapshot)
    requires OptInt(j, "order_id") == Some(e.orderId)
    requires OptInt(j, "item_type") == Some(e.itemType)
    ensures EventFrom(j) == Some(e)
  {
  }

  /** An empty action or result is written exactly as if it were absent. */
  lemma EmptyTextIsDropped(e: ReplayEvent)
    requires e.action == Some("") || e.result == Some("")
    ensures EventJson(e) == EventJson(e.(action := if e.action == Some("") then None else e.action,
                                         result := if e.result == Some("") then None else e.result))
  {
    var e' := e.(action := if e.action == Some("") then None else e.action,
                 result := if e.result == Some("") then None else e.result);
    assert forall key :: EventEntry(e, key) == EventEntry(e', key);
  }

  lemma MetadataRoundTrip(m: ReplayMetadata)
    ensures MetadataFrom(MetadataJson(m)) == Some(m)
  {
    var o := IntKeyed(m.mapLayout);
    IntKeyedRoundTrip(m.mapLayout);
    MetadataFromParts(m, o);
  }

  /** The metadata dictionary reads back field by field, the layout through its own reader. */
  lemma MetadataFromParts(m: ReplayMetadata, o: map<string, Json>)
    requires IntKeyedFrom(o) == Some(m.mapLayout)
    ensures MetadataFrom(JObj(map[
      "version" := JStr(m.version),
      "episode_id" := JStr(m.episodeId),
      "config_path" := JStr(m.configPath),
      "start_time" := JStr(m.startTime),
      "total_ticks" := JInt(m.totalTicks),
      "final_score" := JReal(m.finalScore),
      "map_layout" := JObj(o)])) == Some(m)
  {
  }
}
