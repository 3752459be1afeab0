/**
 * The episode recorder (src/kitchen_rl/recording/recorder.py): a wrapper
 * around the environment that writes a metadata line and a STATE event on
 * reset, one ACTION event per step, a STATE event at keyframes and at the
 * end of the episode, and closes the log when the episode ends. The file
 * name (a timestamp), the episode id and the start time are inputs; the
 * reward sum is floating point and is not modelled.
 */
module Recorder {
  import opened Wrappers
  import opened Text
  import opened JsonValues
  import opened Entities
  import opened KitchenConfig
  import opened Engine
  import opened KitchenEnv
  import opened ReplayModels
  import opened Serializers

  /**
   * The recorder's own fields. `attached` is false when `_serializer` is
   * None; `writer` then still holds the lines of the last file written.
   */
  datatype Recorder = Recorder(
    enabled: bool,
    keyframeInterval: int,
    attached: bool,
    writer: Writer,
    tickCount: int,
    lastActionTime: int,
    completedOrders: int,
    lastAction: Option<int>)

  /** The constructor: no serializer yet, all counters 0. */
  function NewRecorder(enabled: bool, keyframeInterval: int): Recorder {
    Recorder(enabled, keyframeInterval, false, NewWriter, 0, 0, 0, None)
  }

  /** What a file name, a fresh uuid and the clock would supply when a recording starts. */
  datatype Stamp = Stamp(episodeId: string, startTime: string, configPath: string)

  // ---- Snapshots --------------------------------------------------------------

  function ItemStateOf(i: Item): ItemState {
    ItemState(i.typeId, i.uid)
  }

  function InventoryStates(inv: seq<Item>): (r: seq<ItemState>)
    ensures |r| == |inv| && forall i :: 0 <= i < |inv| ==> r[i] == ItemStateOf(inv[i])
  {
    if |inv| == 0 then [] else [ItemStateOf(inv[0])] + InventoryStates(inv[1..])
  }

  function OrderStateOf(o: Order): OrderState {
    OrderState(o.orderId, o.itemType, o.timeRemaining, o.maxTime)
  }

  function OrderStates(orders: seq<Order>): (r: seq<OrderState>)
    ensures |r| == |orders| && forall i :: 0 <= i < |orders| ==> r[i] == OrderStateOf(orders[i])
  {
    if |orders| == 0 then [] else [OrderStateOf(orders[0])] + OrderStates(orders[1..])
  }

  /** A station's record: everything but the dispensed item id. An item is always truthy, so `held_item` is copied exactly when present. */
  function StationRecordOf(s: StationState): StationRecord {
    StationRecord(s.nodeId, s.name, s.stationType,
                  if s.heldItem.Some? then Some(ItemStateOf(s.heldItem.value)) else None,
                  s.isBusy, s.timer)
  }

  function StationRecords(stations: map<int, StationState>): map<int, StationRecord> {
    map k | k in stations :: StationRecordOf(stations[k])
  }

  /** `_record_state_snapshot`'s snapshot of the world, with the recorder's completed count. */
  function TakeSnapshot(w: World, completed: int): StateSnapshot {
    StateSnapshot(w.globalTime, w.agentNode, InventoryStates(w.inventory), StationRecords(w.stations),
                  OrderStates(w.orders), completed)
  }

  /** The STATE event holding that snapshot, stamped with the world's time. */
  function StateEvent(w: World, completed: int): ReplayEvent {
    ReplayEvent(w.globalTime, "STATE", 0, None, None, None, Some(TakeSnapshot(w, completed)), None, None)
  }

  /** Reading items back out of a snapshot. */
  function ItemsBack(inv: seq<ItemState>): (r: seq<Item>)
    ensures |r| == |inv|
  {
    if |inv| == 0 then [] else [Item(inv[0].typeId, inv[0].uid)] + ItemsBack(inv[1..])
  }

  function OrdersBack(orders: seq<OrderState>): (r: seq<Order>)
    ensures |r| == |orders|
  {
    if |orders| == 0 then []
    else [Order(orders[0].orderId, orders[0].itemType, orders[0].timeRemaining, orders[0].maxTime)] + OrdersBack(orders[1..])
  }

  lemma {:induction false} ItemsBackRestores(inv: seq<Item>)
    ensures ItemsBack(InventoryStates(inv)) == inv
    decreases |inv|
  {
    if |inv| > 0 {
      ItemsBackRestores(inv[1..]);
      assert InventoryStates(inv)[1..] == InventoryStates(inv[1..]);
    }
  }

  lemma {:induction false} OrdersBackRestores(orders: seq<Order>)
    ensures OrdersBack(OrderStates(orders)) == orders
    decreases |orders|
  {
    if |orders| > 0 {
      OrdersBackRestores(orders[1..]);
      assert OrderStates(orders)[1..] == OrderStates(orders[1..]);
    }
  }

  /**
   * A snapshot loses nothing but each station's dispensed item id: the
   * inventory and orders come back exactly, in order, and every station
   * comes back with the same node id, name, type, held item, busy flag and
   * timer.
   */
  lemma SnapshotRestores(w: World, completed: int)
    ensures var s := TakeSnapshot(w, completed);
      && s.tick == w.globalTime && s.agentNode == w.agentNode && s.completedOrders == completed
      && ItemsBack(s.inventory) == w.inventory
      && OrdersBack(s.orders) == w.orders
      && s.stations.Keys == w.stations.Keys
      && forall k :: k in w.stations ==>
           var r := s.stations[k];
           && w.stations[k] == StationState(r.nodeId, r.name, r.stationType, w.stations[k].sourceItemId,
                                           if r.heldItem.Some? then Some(Item(r.heldItem.value.typeId, r.heldItem.value.uid)) else None,
                                           r.timer, r.isBusy)
  {
    ItemsBackRestores(w.inventory);
    OrdersBackRestores(w.orders);
  }

  // ---- Metadata ---------------------------------------------------------------

  /** One node's entry in the map layout: its type, name and dispensed item (null when none). */
  function LayoutEntry(n: NodeSpec): Json {
    JObj(map["type" := JStr(n.kind), "name" := JStr(n.name),
             "item_id" := if n.itemId.Some? then JInt(n.itemId.value) else JNull])
  }

  /** `_extract_map_layout`: one entry per configured node id. */
  function MapLayout(nodes: seq<NodeSpec>): (m: map<int, Json>)
    ensures forall k :: k in m <==> exists i :: 0 <= i < |nodes| && nodes[i].id == k
  {
    if |nodes| == 0 then map[]
    else
      var last := nodes[|nodes| - 1];
      var m := MapLayout(nodes[..|nodes| - 1]);
      assert forall i :: 0 <= i < |nodes| - 1 ==> nodes[..|nodes| - 1][i] == nodes[i];
      m[last.id := LayoutEntry(last)]
  }

  /** A node id's entry describes the last node with that id. */
  lemma {:induction false} MapLayoutLastWins(nodes: seq<NodeSpec>, i: int)
    requires 0 <= i < |nodes|
    requires forall j :: i < j < |nodes| ==> nodes[j].id != nodes[i].id
    ensures MapLayout(nodes)[nodes[i].id] == LayoutEntry(nodes[i])
    decreases |nodes|
  {
    var init := nodes[..|nodes| - 1];
    if i < |nodes| - 1 {
      assert init[i] == nodes[i];
      assert forall j :: i < j < |init| ==> init[j] == nodes[j];
      MapLayoutLastWins(init, i);
    }
  }

  function Metadata(c: Config, stamp: Stamp): ReplayMetadata {
    ReplayMetadata("1.0", stamp.episodeId, stamp.configPath, stamp.startTime, 0, 0.0, MapLayout(c.nodes))
  }

  // ---- Recording --------------------------------------------------------------

  /** A recorder in the middle of a recording: an open serializer with the metadata line first. */
  predicate Recording(rec: Recorder) {
    rec.attached && rec.writer.isOpen && rec.writer.metadataWritten && HeaderFirst(rec.writer)
  }

  /**
   * `_start_recording`: a new serializer opens a fresh file, writes the
   * metadata, then a snapshot that still carries the previous episode's
   * completed count, and only then clears the counters.
   */
  function StartRecording(rec: Recorder, w: World, stamp: Stamp): (r: Recorder)
    ensures Recording(r)
    ensures r.writer.lines == [Record(MetadataLine(Metadata(w.config, stamp))),
                               Record(EventJson(StateEvent(w, rec.completedOrders)))]
    ensures r.tickCount == w.globalTime && r.lastActionTime == 0 && r.completedOrders == 0
    ensures r.enabled == rec.enabled && r.keyframeInterval == rec.keyframeInterval && r.lastAction == rec.lastAction
  {
    var blank := Open(NewWriter);
    var withMeta := WriteMetadata(blank, Metadata(w.config, stamp)).value;
    var withState := WriteEvent(withMeta, StateEvent(w, rec.completedOrders)).value;
    HeaderFirstPreserved(blank, Metadata(w.config, stamp), StateEvent(w, rec.completedOrders));
    HeaderFirstPreserved(withMeta, Metadata(w.config, stamp), StateEvent(w, rec.completedOrders));
    rec.(attached := true, writer := withState, tickCount := w.globalTime, lastActionTime := 0, completedOrders := 0)
  }

  /** `reset`: reset the world, and when enabled start a new recording of it. */
  function Reset(rec: Recorder, w: World, second: bool, stamp: Stamp): (r: (Recorder, World))
    ensures r.1 == Engine.Reset(w, second)
    ensures !rec.enabled ==> r.0 == rec
    ensures rec.enabled ==> r.0 == StartRecording(rec, r.1, stamp)
  {
    var w' := Engine.Reset(w, second);
    (if rec.enabled then StartRecording(rec, w', stamp) else rec, w')
  }

  /** The ACTION event of a move: `_get_previous_node` is always None, so the duration is 1 and the origin is spelled "None". */
  function MoveEvent(tick: int, target: int): ReplayEvent {
    ReplayEvent(tick, "ACTION", 1, Some("MOVE"), Some(target), Some("Move_None_to_" + IntToString(target)), None, None, None)
  }

  function InteractEvent(tick: int, node: int, eventInfo: string): ReplayEvent {
    ReplayEvent(tick, "ACTION", 1, Some("INTERACT"), Some(node), Some(eventInfo), None, None, None)
  }

  /** The ACTION event `_record_step` builds for an action, stamped with the previous step's time. */
  function ActionEvent(rec: Recorder, w: World, action: int, numNodes: int, eventInfo: string): ReplayEvent {
    if action < numNodes then MoveEvent(rec.lastActionTime, action)
    else InteractEvent(rec.lastActionTime, w.agentNode, eventInfo)
  }

  /** The completed-order count after this step: one more for an interact whose outcome starts with "Deliver". */
  function CountDelivery(completed: int, action: int, numNodes: int, eventInfo: string): (c: int)
    ensures c == completed || c == completed + 1
    ensures c == completed + 1 <==> action >= numNodes && StartsWith(eventInfo, "Deliver")
  {
    if action >= numNodes && StartsWith(eventInfo, "Deliver") then completed + 1 else completed
  }

  /** The keyframe rule: the time after the step is a multiple of the interval, or the episode is over. */
  predicate Keyframe(tick: int, interval: int, done: bool) {
    (interval != 0 && tick % interval == 0) || done
  }

  /**
   * `_record_step` given the world after the step: write the ACTION event,
   * then a STATE event at a keyframe, and move the recorder's clock on.
   * Without a serializer the write raises; an interval of 0 makes the
   * keyframe test raise after the ACTION event was written.
   */
  function RecordStep(rec: Recorder, w: World, action: int, numNodes: int, eventInfo: string, done: bool): (r: Result<Recorder>)
    ensures !rec.attached ==> r.Failure?
    ensures rec.keyframeInterval == 0 ==> r.Failure?
    ensures Recording(rec) && rec.keyframeInterval != 0 ==> r.Success?
    ensures r.Success? ==>
      var completed := CountDelivery(rec.completedOrders, action, numNodes, eventInfo);
      var act := [Record(EventJson(ActionEvent(rec, w, action, numNodes, eventInfo)))];
      && r.value.writer.lines ==
           rec.writer.lines + act
           + (if Keyframe(w.globalTime, rec.keyframeInterval, done) then [Record(EventJson(StateEvent(w, completed)))] else [])
      && r.value.completedOrders == completed
      && r.value.tickCount == w.globalTime && r.value.lastActionTime == w.globalTime
      && r.value.attached && r.value.writer.isOpen == rec.writer.isOpen
      && r.value.writer.metadataWritten == rec.writer.metadataWritten
      && r.value.enabled == rec.enabled && r.value.keyframeInterval == rec.keyframeInterval
      && r.value.lastAction == rec.lastAction
  {
    if !rec.attached then Failure("AttributeError: 'NoneType' object has no attribute 'write_event'")
    else
      var event := ActionEvent(rec, w, action, numNodes, eventInfo);
      var completed := CountDelivery(rec.completedOrders, action, numNodes, eventInfo);
      var written :- WriteEvent(rec.writer, event);
      if rec.keyframeInterval == 0 then Failure("ZeroDivisionError: integer division or modulo by zero")
      else
        var final := if Keyframe(w.globalTime, rec.keyframeInterval, done)
                     then WriteEvent(written, StateEvent(w, completed)).value
                     else written;
        Success(rec.(writer := final, completedOrders := completed, tickCount := w.globalTime, lastActionTime := w.globalTime))
  }

  /** `_finalize_recording`: close the serializer and drop it; nothing happens without one. */
  function Finalize(rec: Recorder): (r: Recorder)
    ensures !r.attached && !(rec.attached && r.writer.isOpen)
    ensures r.writer.lines == rec.writer.lines
  {
    if rec.attached then rec.(attached := false, writer := Close(rec.writer)) else rec
  }

  /**
   * `step`: remember the action, step the environment, record when enabled,
   * and finalize when the episode ended. Whatever the environment returns
   * is passed on unchanged.
   */
  function Step(rec: Recorder, w: World, action: int, draws: int -> Draw): (r: Result<(StepResult, Recorder)>)
    ensures KitchenEnv.Step(w, action, draws).Failure? ==> r.Failure?
    ensures r.Success? ==> r.value.0 == KitchenEnv.Step(w, action, draws).value
    ensures !rec.enabled ==> r.Success? == KitchenEnv.Step(w, action, draws).Success?
    ensures !rec.enabled && r.Success? ==> r.value.1 == rec.(lastAction := Some(action))
  {
    var res :- KitchenEnv.Step(w, action, draws);
    var rec1 := rec.(lastAction := Some(action));
    if !rec.enabled then Success((res, rec1))
    else
      var done := res.terminated || res.truncated;
      var rec2 :- RecordStep(rec1, res.world, action, NumNodes(w.config), res.eventInfo, done);
      Success((res, if done then Finalize(rec2) else rec2))
  }

  // ---- Properties -------------------------------------------------------------

  /**
   * An enabled reset leaves a file that loads as the metadata and exactly one
   * STATE event at the reset world's time; a disabled reset writes nothing.
   */
  lemma ResetWritesHeaderAndState(rec: Recorder, w: World, second: bool, stamp: Stamp)
    ensures var (r, w') := Reset(rec, w, second, stamp);
      && (rec.enabled ==>
            && Load(r.writer.lines) == Success((Some(MetadataJson(Metadata(w'.config, stamp))),
                                                [EventJson(StateEvent(w', rec.completedOrders))]))
            && w'.globalTime == 0 && StateEvent(w', rec.completedOrders).tick == 0)
      && (!rec.enabled ==> r.writer == rec.writer)
  {
    var (r, w') := Reset(rec, w, second, stamp);
    if rec.enabled {
      var rest := [Record(EventJson(StateEvent(w', rec.completedOrders)))];
      assert r.writer.lines == [Record(MetadataLine(Metadata(w'.config, stamp)))] + rest;
      assert MetadataLine(Metadata(w'.config, stamp)).fields.Keys == {"metadata"};
      LoadAfterHeader(MetadataLine(Metadata(w'.config, stamp)), rest);
      assert rest[0] == Record(EventJson(StateEvent(w', rec.completedOrders)));
      assert rest[1..] == [];
      assert Records(rest) == [EventJson(StateEvent(w', rec.completedOrders))];
    }
  }

  /**
   * The initial snapshot is written before the completed count is cleared,
   * so after an episode with deliveries it reports the old count while the
   * recorder restarts from 0.
   */
  lemma InitialSnapshotCountIsStale(rec: Recorder, w: World, second: bool, stamp: Stamp)
    requires rec.enabled && rec.completedOrders != 0
    ensures var (r, w') := Reset(rec, w, second, stamp);
      && r.completedOrders == 0
      && TakeSnapshot(w', rec.completedOrders).completedOrders != r.completedOrders
      && r.writer.lines[1] == Record(EventJson(StateEvent(w', rec.completedOrders)))
  {
  }

  /**
   * Each enabled step of a running recording appends exactly one ACTION
   * event, then one STATE event iff the time after the step is a multiple of
   * the interval or the episode ended; an ended episode is closed and its
   * serializer dropped.
   */
  lemma StepAppendsEvents(rec: Recorder, w: World, action: int, draws: int -> Draw)
    requires rec.enabled && Recording(rec) && rec.keyframeInterval != 0
    requires KitchenEnv.Step(w, action, draws).Success?
    ensures var res := KitchenEnv.Step(w, action, draws).value;
      var done := res.terminated || res.truncated;
      var r := Step(rec, w, action, draws);
      && r.Success?
      && r.value.1.writer.lines ==
           rec.writer.lines
           + [Record(EventJson(ActionEvent(rec, res.world, action, NumNodes(w.config), res.eventInfo)))]
           + (if Keyframe(res.world.globalTime, rec.keyframeInterval, done)
              then [Record(EventJson(StateEvent(res.world, r.value.1.completedOrders)))] else [])
      && (done <==> !r.value.1.attached)
      && (!done ==> Recording(r.value.1))
  {
    var res := KitchenEnv.Step(w, action, draws).value;
    var rec1 := rec.(lastAction := Some(action));
    var done := res.terminated || res.truncated;
    assert Recording(rec1);
    var rec2 := RecordStep(rec1, res.world, action, NumNodes(w.config), res.eventInfo, done).value;
    assert ActionEvent(rec1, res.world, action, NumNodes(w.config), res.eventInfo)
        == ActionEvent(rec, res.world, action, NumNodes(w.config), res.eventInfo);
    var act := ActionEvent(rec, res.world, action, NumNodes(w.config), res.eventInfo);
    var state := StateEvent(res.world, rec2.completedOrders);
    HeaderFirstPreserved(rec.writer, Metadata(w.config, Stamp("", "", "")), act);
    var mid := WriteEvent(rec.writer, act).value;
    HeaderFirstPreserved(mid, Metadata(w.config, Stamp("", "", "")), state);
  }

  /** A move is recorded with duration 1, the target as given, and an origin of "None". */
  lemma MoveEventShape(rec: Recorder, w: World, action: int, numNodes: int, eventInfo: string)
    requires action < numNodes
    ensures var e := ActionEvent(rec, w, action, numNodes, eventInfo);
      && e.duration == 1 && e.action == Some("MOVE") && e.target == Some(action)
      && e.result == Some("Move_None_to_" + IntToString(action))
      && ParseInt(e.result.value[|"Move_None_to_"|..]) == Some(action)
  {
    ParseIntOfIntToString(action);
    var e := ActionEvent(rec, w, action, numNodes, eventInfo);
    assert e.result.value[|"Move_None_to_"|..] == IntToString(action);
  }

  /**
   * An interact is recorded with duration 1 at the agent's node with the
   * outcome text as its result; the text survives encoding unless it is
   * empty, in which case the event dictionary carries no result.
   */
  lemma InteractEventShape(rec: Recorder, w: World, action: int, numNodes: int, eventInfo: string)
    requires action >= numNodes
    ensures var e := ActionEvent(rec, w, action, numNodes, eventInfo);
      && e.duration == 1 && e.action == Some("INTERACT") && e.target == Some(w.agentNode)
      && e.result == Some(eventInfo)
      && (Field(EventJson(e), "result") == if eventInfo == "" then None else Some(JStr(eventInfo)))
  {
    var e := ActionEvent(rec, w, action, numNodes, eventInfo);
    EventDictShape(e);
    assert Field(EventJson(e), "result") == EventEntry(e, "result");
  }

  /**
   * ACTION events are stamped with the time at which the previous step ended,
   * so in a running recording the stamps never go backwards: the next stamp
   * is the time after this step, which is no earlier than this step's stamp.
   */
  lemma ActionTicksNonDecreasing(rec: Recorder, w: World, action: int, draws: int -> Draw)
    requires rec.enabled && Recording(rec) && rec.keyframeInterval != 0
    requires rec.lastActionTime <= w.globalTime
    requires KitchenEnv.Step(w, action, draws).Success?
    ensures var r := Step(rec, w, action, draws);
      var res := r.value.0;
      && r.Success?
      && ActionEvent(rec, res.world, action, NumNodes(w.config), res.eventInfo).tick == rec.lastActionTime
      && r.value.1.lastActionTime == res.world.globalTime
      && rec.lastActionTime <= r.value.1.lastActionTime
  {
  }

  /**
   * With the clock advancing by whole move costs, a step can jump over every
   * multiple of the interval: from time 8 to time 13 under an interval of 10
   * nothing but the ACTION event is written, and no snapshot at time 10 exists.
   */
  lemma KeyframeCanBeSkipped(rec: Recorder, w: World, action: int, numNodes: int, eventInfo: string)
    requires Recording(rec) && rec.keyframeInterval == 10 && w.globalTime == 13
    ensures var r := RecordStep(rec, w, action, numNodes, eventInfo, false);
      && r.Success?
      && |r.value.writer.lines| == |rec.writer.lines| + 1
  {
  }

  /** After the episode ends the serializer is gone, so one more enabled step fails. */
  lemma StepAfterEndFails(rec: Recorder, w: World, action: int, draws: int -> Draw)
    requires rec.enabled && !rec.attached
    ensures Step(rec, w, action, draws).Failure?
  {
  }

  /** A running recording always loads: its first line is the metadata and the rest are events. */
  lemma RecordingLoads(rec: Recorder)
    requires Recording(rec)
    ensures Load(rec.writer.lines).Success? && Load(rec.writer.lines).value.0.Some?
    ensures Load(rec.writer.lines).value.1 == Records(rec.writer.lines[1..])
  {
    var lines := rec.writer.lines;
    assert lines == [lines[0]] + lines[1..];
    LoadAfterHeader(lines[0].value, lines[1..]);
  }
}
