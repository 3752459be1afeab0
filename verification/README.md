# Kitchen graph RL, modelled in Dafny

This project models the kitchen simulation of the AI_Dishwasher repository.
An agent walks a weighted graph of kitchen stations, picks up ingredients,
processes them at stoves and cutting boards, and delivers dishes against
orders that expire. The model covers:

- **The packaged engine** (`src/kitchen_rl`):
  - `Entities` models stations, items and orders;
  - `Navigation` models the weighted graph, move costs and the shortest-distance table;
  - `Interactions` models the interaction strategies and their outcome strings;
  - `Engine` models the world: reset, clock, order spawning, moves, and applying an outcome string;
  - `ActionMask` models the action mask;
  - `KitchenEnv` models the gym step;
  - `Heuristic` models the rule-based planner.
- **Replay recording and playback:**
  - `JsonValues` models JSON values and integer-keyed objects;
  - `ReplayModels` models the dataclasses and their dictionaries;
  - `Serializers` models the JSONL writer and loader;
  - `Recorder` models the episode recorder;
  - `Playback` models the visualizer's timeline, stepping, state lookup and colour parsing.
- **The earlier root-level engine:**
  - `LegacyConfig` models `config.py`;
  - `LegacyEntities` models `entities.py`;
  - `LegacyWorld` models `world.py`;
  - `LegacyEnv` models `kitchen_env.py`.
- **The prototype environments:**
  - `PotatoEnv` models `1.py`;
  - `StageEnv` models `logic.py`;
  - `RecipeEnv` models `app.py`.
- **The grid map:** `KitchenMap` models `moduls/kitchen_map.py`. It covers node extraction, the breadth-first distance and the complete graph.
- **The platformer's transformation table:** `GameRecipes` models `game/recipes.py`.

Shared helpers:

- `Wrappers` holds `Option` and `Result`.
- `Text` holds Python's `str(int)`, `int(str)` and `str.split`.
- `KitchenConfig` holds the loaded configuration, as a value.

How Python behaviour is represented:

- **Exceptions.** A Python exception becomes a `Failure`. Examples are a `KeyError` on a missing station, an `IndexError` past a list's end, and a `RuntimeError` from the serializer.
- **Randomness.** It is an explicit input. Each simulated second of the clock consumes one draw, which decides whether an order spawns and which type it gets.
- **The graph library.** The shortest-distance table and the shortest-path query are inputs. `Navigation.ShortestTable` states what a correct table is.

## Model

| member | source | states |
|---|---|---|
| Entities.Tick | src/kitchen_rl/core/entities.py:33-41 | a tick never changes identity or held item; an idle station is untouched; a processing station counts down and reports `finished` exactly when its timer was at most 1, then stops with timer 0 |
| Entities.TickManyKeepsContents | src/kitchen_rl/core/entities.py:33-41 | any number of ticks yields one flag per tick and keeps identity and contents |
| Entities.FinishesExactlyOnce | src/kitchen_rl/core/entities.py:33-41 | a station processing with timer t reports `finished` on its t-th tick and on no other |
| Entities.IdleNeverFinishes | src/kitchen_rl/core/entities.py:33-41 | an idle station never reports `finished` and is left unchanged |
| Navigation.EdgeWeight | src/kitchen_rl/core/navigation.py:11-12 | the weight of the undirected edge {a, b}; a re-added edge keeps its last configured weight |
| Navigation.EdgeWeightSymmetric | src/kitchen_rl/core/navigation.py:11-12 | the edge weight is the same in both directions |
| Navigation.Nodes | src/kitchen_rl/core/navigation.py:8-12 | every configured node and every edge endpoint is a node of the graph |
| Navigation.Neighbors | src/kitchen_rl/core/navigation.py:19-20 | the neighbours of a known node are exactly the nodes sharing an edge with it; an unknown node fails |
| Navigation.NeighborsSymmetric | src/kitchen_rl/core/navigation.py:19-20 | v is a neighbour of u iff u is a neighbour of v iff an edge joins them |
| Navigation.MoveCost | src/kitchen_rl/core/navigation.py:22-25 | 1 to stay put, the edge weight to a neighbour, 100 otherwise |
| Navigation.GetDistance | src/kitchen_rl/core/navigation.py:16-17 | the table entry, 999 when the target has none, a failure for a node without a row |
| Navigation.WalkNodes | src/kitchen_rl/core/navigation.py:8-14 | every node on a walk is a node of the graph |
| Navigation.ConcatWalk | src/kitchen_rl/core/navigation.py:14 | gluing walks a..m and m..b gives a walk a..b whose cost is the sum |
| Navigation.ReverseWalk | src/kitchen_rl/core/navigation.py:14 | a reversed walk is a walk with the same cost, since edges are undirected |
| Navigation.ShortestWitness | src/kitchen_rl/core/navigation.py:14 | a table entry for a reachable target is the cost of some walk |
| Navigation.ShortestBound | src/kitchen_rl/core/navigation.py:14 | no walk is cheaper than the table entry |
| Navigation.DistanceToSelf | src/kitchen_rl/core/navigation.py:14-17 | a node's distance to itself is 0 |
| Navigation.DistanceSymmetric | src/kitchen_rl/core/navigation.py:14-17 | reachability and least cost agree in both directions |
| Navigation.DistanceTriangle | src/kitchen_rl/core/navigation.py:14-17 | with the library's table, for w reachable from u and v reachable from w, the distance from u to v is at most the sum of the two legs |
| Navigation.DistanceAtMostMoveCost | src/kitchen_rl/core/navigation.py:14-25 | the distance between adjacent nodes is at most their move cost |
| Navigation.UnreachableIsSentinel | src/kitchen_rl/core/navigation.py:16-17 | an unreachable target is reported at distance 999 |
| KitchenConfig.NodeIds | src/kitchen_rl/core/engine.py:18-25 | the node ids in configuration order, one per node |
| Interactions.FirstRecipe | src/kitchen_rl/logic/interactions.py:39-41 | the index of the first recipe for this item at this station, and none earlier matches |
| Interactions.FindPlacement | src/kitchen_rl/logic/interactions.py:38-45 | the first inventory item that some recipe at this station accepts, and no earlier item is accepted |
| Interactions.FirstOrder | src/kitchen_rl/logic/interactions.py:56 | the index of the first order for this item type, and no earlier order wants it |
| Interactions.FindDelivery | src/kitchen_rl/logic/interactions.py:55-61 | the first inventory item that some order wants, with that order |
| Interactions.SourceHandle | src/kitchen_rl/logic/interactions.py:17-25 | fails with "Inventory Full" at capacity, else succeeds naming the dispensed item |
| Interactions.ProcessHandle | src/kitchen_rl/logic/interactions.py:27-49 | a finished item is retrieved when there is room; an empty station takes the first placeable item; a busy station, a full inventory or no suitable item fails with its message |
| Interactions.DeliveryHandle | src/kitchen_rl/logic/interactions.py:51-61 | succeeds with the first wanted item and its first order; fails with "Wrong Item"; capacity is never consulted |
| Interactions.AttemptInteraction | src/kitchen_rl/logic/interactions.py:63-78 | dispatches on the station type; the floor and unknown types fail with "Nothing to interact with" |
| Interactions.LeastPlacementUnique | src/kitchen_rl/logic/interactions.py:38-45 | the placement a successful place names is the unique least one |
| Interactions.SuccessNamesValidTargets | src/kitchen_rl/logic/interactions.py:25-59 | on success every encoded index names an inventory item and every encoded order id belongs to a current order |
| Interactions.DecodedIntent | src/kitchen_rl/logic/interactions.py:17-61 | every successful outcome string is the encoding of a well-formed intent |
| Interactions.EncodeInjective | src/kitchen_rl/logic/interactions.py:25-59 | distinct intents have distinct outcome strings |
| Interactions.DecodeEncode | src/kitchen_rl/logic/interactions.py:25-59 | decoding an encoded intent gives the intent back |
| Engine.StationsOf | src/kitchen_rl/core/engine.py:18-25 | one station per configured node, with an empty processing state; a repeated id keeps its last entry |
| Engine.SpawnOrder | src/kitchen_rl/core/engine.py:127-138 | the next order id, one of the types 2 and 4, and a full time-to-live |
| Engine.Reset | src/kitchen_rl/core/engine.py:29-43 | clock 0, agent at node 0, empty inventory, uid counter 0, every station cleared and idle, and exactly one order: id 1, type 2 or 4, full time-to-live |
| Engine.Build | src/kitchen_rl/core/engine.py:9-27 | the navigation graph over the configured nodes and edges, one station per node, then a reset |
| Engine.ResetIsConsistent | src/kitchen_rl/core/engine.py:29-43 | a reset world satisfies the world invariant |
| Engine.CountDown | src/kitchen_rl/core/engine.py:55-62 | every order loses one unit; the survivors are the unexpired decremented orders and the dropped ones are counted; ids stay increasing |
| Engine.CountDownFilters | src/kitchen_rl/core/engine.py:55-62 | the survivors are exactly the orders decremented by one unit and then filtered to the unexpired ones, in their original order |
| Engine.TickSecond | src/kitchen_rl/core/engine.py:49-66 | one second advances the clock, ticks every station, counts down orders and spawns only below the order limit |
| Engine.Tick | src/kitchen_rl/core/engine.py:45-68 | the clock advances by `max(seconds, 0)`; agent, inventory and configuration are untouched; the order count never exceeds the larger of its old value and the limit; the returned expired count is 0 for no seconds, and it plus the orders left equals the orders before plus those spawned |
| Engine.TickSecondConsistent | src/kitchen_rl/core/engine.py:49-66 | a second keeps order ids increasing; a spawned order takes a fresh larger id |
| Engine.TickConsistent | src/kitchen_rl/core/engine.py:45-68 | any number of seconds keeps the world invariant |
| Engine.SpawnedOrderFresh | src/kitchen_rl/core/engine.py:64-66 | an order spawned in a tick has the next id and one of the two order types |
| Engine.MoveAgent | src/kitchen_rl/core/engine.py:70-74 | the agent always relocates, and the cost is the graph's move cost |
| Engine.ParseEncode | src/kitchen_rl/core/engine.py:90-123 | splitting an encoded intent on '_' and parsing its numbers recovers every encoded number |
| Engine.RemoveOrderId | src/kitchen_rl/core/engine.py:123 | keeps exactly the orders with another id, in order |
| Engine.Interact | src/kitchen_rl/core/engine.py:76-125 | a node with no station fails; a refused attempt returns its message and changes nothing; any result text is the strategies' outcome |
| Engine.InteractDoesWhatOutcomeSays | src/kitchen_rl/core/engine.py:90-123 | for each intent the strategies can encode, applying its string performs exactly that intent's mutation (pickup, retrieve, place, deliver) |
| Engine.ApplyMatchesEffect | src/kitchen_rl/core/engine.py:93-123 | applying an intent's command performs the intent's effect for in-range indexes |
| Engine.InteractFailsOnlyWithoutSourceItem | src/kitchen_rl/core/engine.py:93-97 | a successful attempt fails to apply only at a source that names no item |
| Engine.InteractKeepsInventoryBound | src/kitchen_rl/core/engine.py:93-102 | the inventory stays within capacity; only pickup and retrieve grow it |
| Engine.InteractConsistent | src/kitchen_rl/core/engine.py:76-123 | interacting keeps the world invariant; a picked-up item takes a fresh uid |
| Engine.InteractKeepsOrderBound | src/kitchen_rl/core/engine.py:117-123 | interacting never adds an order |
| Engine.InteractKeepsConfig | src/kitchen_rl/core/engine.py:76-123 | interacting never changes the configuration, the graph, the clock or the agent's node |
| ActionMask.Slot | src/kitchen_rl/env/action_mask.py:24-25 | numpy's slot for an index; negative indexes count from the end and out-of-range ones fail |
| ActionMask.RecipeAcceptsIff | src/kitchen_rl/env/action_mask.py:54-57 | the recipe scan succeeds iff some recipe takes the item at this station |
| ActionMask.AnyIngredientFitsIff | src/kitchen_rl/env/action_mask.py:51-58 | the inventory scan succeeds iff the place strategy would find an item |
| ActionMask.OrderWantsIff | src/kitchen_rl/env/action_mask.py:63-65 | the order scan succeeds iff some order wants the item |
| ActionMask.AnyOrderMatchesIff | src/kitchen_rl/env/action_mask.py:60-66 | the delivery scan succeeds iff the delivery strategy would succeed |
| ActionMask.CanInteractIffAttemptSucceeds | src/kitchen_rl/env/action_mask.py:34-68 | interact is allowed exactly when the strategies would accept an attempt at this station |
| ActionMask.MarkSlots | src/kitchen_rl/env/action_mask.py:22-25 | the slot of every listed index is set and no other; an index outside numpy's range fails |
| ActionMask.GetMask | src/kitchen_rl/env/action_mask.py:14-32 | the neighbours' slots, plus the interact slot iff interacting is possible |
| ActionMask.MaskOnIndexedConfig | src/kitchen_rl/env/action_mask.py:14-32 | with node ids 0 .. N-1, move j is allowed iff node j is adjacent to the agent, and interact iff an attempt would succeed |
| ActionMask.MaskDeterministic | src/kitchen_rl/env/action_mask.py:14-32 | two calls on the same world give the same mask |
| KitchenEnv.Act | src/kitchen_rl/env/kitchen_env.py:49-59 | a move costs the move cost; an interact costs 1 tick and returns the outcome text |
| KitchenEnv.Step | src/kitchen_rl/env/kitchen_env.py:43-77 | the world is ticked once by the time taken; the episode never terminates and truncates once the clock reaches `max_steps` |
| KitchenEnv.StepInfo | src/kitchen_rl/env/kitchen_env.py:74-75 | the info holds the time, the pending order count and the event text |
| KitchenEnv.StepTime | src/kitchen_rl/env/kitchen_env.py:50-59 | a move never fails, and an interact always costs exactly one tick |
| KitchenEnv.StepPreserves | src/kitchen_rl/env/kitchen_env.py:43-77 | a step keeps the world invariant, the inventory bound and the order bound |
| KitchenEnv.ActPreserves | src/kitchen_rl/env/kitchen_env.py:49-59 | acting keeps those facts and the configuration |
| Heuristic.ReadyStation | src/kitchen_rl/agents/heuristic.py:68-73 | the first station, in table order, holding a finished item that some order wants; none when no station qualifies |
| Heuristic.NodeNamed | src/kitchen_rl/agents/heuristic.py:83-85 | the first node with the name; none when no node has it |
| Heuristic.RecipeTarget | src/kitchen_rl/agents/heuristic.py:78-85 | the station of the first usable recipe for an item; none when no recipe is usable |
| Heuristic.ProcessTarget | src/kitchen_rl/agents/heuristic.py:76-85 | the first station that can process some carried item; none when no carried item has a usable recipe |
| Heuristic.MostUrgent | src/kitchen_rl/agents/heuristic.py:90-91 | the order with the least time remaining, earliest among ties (a stable sort's head) |
| Heuristic.RawIngredient | src/kitchen_rl/agents/heuristic.py:103-109 | the input of the first recipe producing the item, else 0 |
| Heuristic.SourceNode | src/kitchen_rl/agents/heuristic.py:97-99 | the first node dispensing the item; none when no node does |
| Heuristic.DecideNextTarget | src/kitchen_rl/agents/heuristic.py:56-101 | the rules fire in priority order: deliver, retrieve, process, fetch, else stay |
| Heuristic.DecideNamesKnownNode | src/kitchen_rl/agents/heuristic.py:56-101 | the target is the delivery window, the agent's node or a configured node |
| Heuristic.NothingToDoStaysPut | src/kitchen_rl/agents/heuristic.py:56-101 | an empty inventory with no orders leaves the planner where it is |
| Heuristic.GetAction | src/kitchen_rl/agents/heuristic.py:19-54 | arriving at a non-floor target interacts and forgets it; otherwise the planner always remembers a target, and a remembered target other than the floor and the agent's node is kept |
| Heuristic.GetActionFollowsWalks | src/kitchen_rl/agents/heuristic.py:41-52 | when every returned path is a walk between its endpoints, the action is an interact, staying put or a move to an adjacent node, and the only failure is the library's `NodeNotFound` |
| Heuristic.EffectiveTarget | src/kitchen_rl/agents/heuristic.py:23-32 | a remembered target survives unless it is the floor or the agent's own node; otherwise a new target is decided |
| Heuristic.PlannedStep | src/kitchen_rl/agents/heuristic.py:23-52 | unless it has just arrived at a station, the planner interacts at its effective target, stays put when there is no path, raises on a missing node or a path with no second node, and otherwise takes the path's next hop, remembering the target |
| JsonValues.KeysParseBack | src/kitchen_rl/recording/models.py:95 | every integer key's decimal text parses back to the key |
| JsonValues.IntKeyedShape | src/kitchen_rl/recording/models.py:95 | each entry is written under its key's decimal text, and nothing else is written |
| JsonValues.IntKeyedFromShape | src/kitchen_rl/recording/models.py:95 | reading succeeds iff every key is an integer's canonical text, and each entry moves to its parsed key |
| JsonValues.IntKeyedRoundTrip | src/kitchen_rl/recording/models.py:95 | writing an integer-keyed dictionary and reading it back gives the same dictionary |
| ReplayModels.EventJson | src/kitchen_rl/recording/models.py:120-140 | the keys of the event dictionary |
| ReplayModels.EventDictShape | src/kitchen_rl/recording/models.py:120-140 | tick, type and duration always; action and result only when non-empty; target, order id and item type whenever present, even 0; the snapshot whenever present |
| ReplayModels.ItemOrderDictShape | src/kitchen_rl/recording/models.py:38-39 | item and order dictionaries carry exactly their fields |
| ReplayModels.StationDictShape | src/kitchen_rl/recording/models.py:52-60 | `held_item` is null iff nothing is held, else the item's dictionary |
| ReplayModels.SnapshotDictShape | src/kitchen_rl/recording/models.py:90-98 | inventory and orders become arrays of the same length and order; stations are keyed by the id's text |
| ReplayModels.ItemRoundTrip | src/kitchen_rl/recording/models.py:38-39 | an item dictionary reads back as the item |
| ReplayModels.StationRoundTrip | src/kitchen_rl/recording/models.py:52-60 | a station dictionary reads back as the station |
| ReplayModels.OrderRoundTrip | src/kitchen_rl/recording/models.py:71-77 | an order dictionary reads back as the order |
| ReplayModels.StationsRoundTrip | src/kitchen_rl/recording/models.py:95 | the station table survives its integer keys becoming text |
| ReplayModels.SnapshotRoundTrip | src/kitchen_rl/recording/models.py:90-98 | a snapshot reads back with its inventory and orders in order and its station keys |
| ReplayModels.EventRoundTrip | src/kitchen_rl/recording/models.py:120-140 | an event whose action and result are absent or non-empty reads back unchanged |
| ReplayModels.EmptyTextIsDropped | src/kitchen_rl/recording/models.py:127-132 | an empty action or result is written as if it were absent |
| ReplayModels.MetadataRoundTrip | src/kitchen_rl/recording/models.py:20-29 | metadata reads back unchanged |
| Serializers.Open | src/kitchen_rl/recording/serializers.py:19-27 | the file is truncated and the handle opened; the metadata flag is left as it was |
| Serializers.Close | src/kitchen_rl/recording/serializers.py:28-32 | the handle is dropped; the flag and the written lines are kept |
| Serializers.WriteMetadata | src/kitchen_rl/recording/serializers.py:34-44 | fails without a handle or on a second call; otherwise appends the metadata line and sets the flag |
| Serializers.WriteEvent | src/kitchen_rl/recording/serializers.py:46-54 | fails without a handle or before metadata; otherwise appends the event's line |
| Serializers.WriteEvents | src/kitchen_rl/recording/serializers.py:56-59 | writing a list of events fails exactly when the serializer is closed or has no metadata yet (an empty list always succeeds), with the error of the first event's write |
| Serializers.WriteEventsAppends | src/kitchen_rl/recording/serializers.py:56-59 | a successful write appends one line per event, in order, and changes nothing else |
| Serializers.Records | src/kitchen_rl/recording/serializers.py:89-106 | never more records than lines, and the records of two files one after the other are the records of each, in order |
| Serializers.SkipsNoise | src/kitchen_rl/recording/serializers.py:91-99 | a blank or malformed line neither stops the loader nor is kept; the records around it are kept in order |
| Serializers.MentionsMetadata | src/kitchen_rl/recording/serializers.py:101 | `'metadata' in data` is a key test, an element test, a substring test, or a TypeError, depending on the value |
| Serializers.MetadataOf | src/kitchen_rl/recording/serializers.py:103 | subscripting `data['metadata']` after the test has passed |
| Serializers.LoadClassifies | src/kitchen_rl/recording/serializers.py:76-111 | metadata is present iff line 1 is a dictionary with a "metadata" key; the events are the other parsed lines, in order |
| Serializers.LoadRejectsScalarFirstLine | src/kitchen_rl/recording/serializers.py:101 | a bare number, boolean or null on line 1 makes the load fail |
| Serializers.LoadRejectsMetadataList | src/kitchen_rl/recording/serializers.py:101-103 | a list on line 1 holding "metadata" passes the test and then fails to subscript |
| Serializers.HeaderFirstPreserved | src/kitchen_rl/recording/serializers.py:19-54 | writes and closes keep the metadata line first; open keeps it only if metadata was never written |
| Serializers.ReopenLosesMetadata | src/kitchen_rl/recording/serializers.py:19-54 | after close and a second open, events are still accepted but the file has no metadata line |
| Serializers.WriteThenLoad | src/kitchen_rl/recording/serializers.py:34-111 | writing metadata and events to a fresh file and loading it gives back the metadata and the events in order |
| Serializers.LoadAfterHeader | src/kitchen_rl/recording/serializers.py:89-106 | a first line holding only "metadata" loads that value and the records after it |
| Recorder.ItemsBackRestores | src/kitchen_rl/recording/recorder.py:182-185 | the snapshot's items read back as the inventory |
| Recorder.OrdersBackRestores | src/kitchen_rl/recording/recorder.py:207-215 | the snapshot's orders read back as the orders |
| Recorder.SnapshotRestores | src/kitchen_rl/recording/recorder.py:177-232 | a snapshot keeps the inventory and orders exactly, and every station's id, name, type, held item, busy flag and timer |
| Recorder.MapLayout | src/kitchen_rl/recording/recorder.py:241-253 | one layout entry per configured node id |
| Recorder.MapLayoutLastWins | src/kitchen_rl/recording/recorder.py:246-251 | a repeated node id is described by its last node |
| Recorder.StartRecording | src/kitchen_rl/recording/recorder.py:96-125 | opens a fresh file, writes the metadata, then a snapshot with the old completed count, then clears the counters |
| Recorder.Reset | src/kitchen_rl/recording/recorder.py:61-68 | resets the world and, when enabled, starts a recording |
| Recorder.CountDelivery | src/kitchen_rl/recording/recorder.py:163-165 | one more completed order iff an interact's outcome starts with "Deliver" |
| Recorder.RecordStep | src/kitchen_rl/recording/recorder.py:127-175 | writes the ACTION event, then a STATE event at a keyframe or episode end; fails without a serializer or with interval 0 |
| Recorder.Finalize | src/kitchen_rl/recording/recorder.py:234-239 | closes and drops the serializer; nothing happens without one |
| Recorder.Step | src/kitchen_rl/recording/recorder.py:70-90 | steps the environment, records when enabled and finalizes on episode end; the environment's output is passed on unchanged |
| Recorder.ResetWritesHeaderAndState | src/kitchen_rl/recording/recorder.py:61-125 | an enabled reset leaves a file that loads as the metadata plus one STATE event; a disabled reset writes nothing |
| Recorder.InitialSnapshotCountIsStale | src/kitchen_rl/recording/recorder.py:117-125 | the initial snapshot reports the previous episode's completed count while the recorder restarts from 0 |
| Recorder.StepAppendsEvents | src/kitchen_rl/recording/recorder.py:127-175 | each enabled step appends one ACTION event, then one STATE event iff the time is a multiple of the interval or the episode ended |
| Recorder.MoveEventShape | src/kitchen_rl/recording/recorder.py:133-150 | a move is recorded with duration 1, the target as given and an origin of "None" |
| Recorder.InteractEventShape | src/kitchen_rl/recording/recorder.py:151-161 | an interact is recorded with duration 1 at the agent's node, with the outcome text as its result unless that text is empty |
| Recorder.ActionTicksNonDecreasing | src/kitchen_rl/recording/recorder.py:143-175 | ACTION events carry the previous step's end time, so their stamps never go backwards |
| Recorder.KeyframeCanBeSkipped | src/kitchen_rl/recording/recorder.py:170-171 | a step from time 8 to 13 under interval 10 writes no snapshot for time 10 |
| Recorder.StepAfterEndFails | src/kitchen_rl/recording/recorder.py:86-88 | once the episode has ended the serializer is gone, and another enabled step fails |
| Recorder.RecordingLoads | src/kitchen_rl/recording/recorder.py:96-175 | a running recording always loads: metadata first, then events |
| Playback.EntryOf | visualizer/main.py:78-85 | an event becomes a timeline entry when it has a tick and a type |
| Playback.SnapshotsOf | visualizer/main.py:87-89 | the snapshot table is filled in file order |
| Playback.SnapshotsLastWins | visualizer/main.py:87-89 | the snapshot kept for a tick is the last STATE event at that tick |
| Playback.Insert | visualizer/main.py:92 | x is placed after every entry whose tick is at most x's |
| Playback.SortByTick | visualizer/main.py:92 | the timeline sorted by tick, a permutation of its input |
| Playback.WithTickInsert | visualizer/main.py:92 | inserting x puts it after every entry with its tick |
| Playback.SortKeepsTickOrder | visualizer/main.py:92 | the sort is stable: entries with the same tick keep their file order |
| Playback.Build | visualizer/main.py:63-96 | fails iff some event lacks a tick or type; otherwise a sorted permutation of the entries, paused at entry 0, the tick at most every entry's tick (0 when empty), snapshots from file order |
| Playback.StepForward | visualizer/main.py:194-199 | pauses, and moves to the next entry unless at the last |
| Playback.StepBackward | visualizer/main.py:201-206 | pauses, and moves to the previous entry unless at the first |
| Playback.Rewind | visualizer/main.py:208-213 | pauses at the first entry |
| Playback.UpdatePlayback | visualizer/main.py:153-165 | advances the tick by the speed's integer part and clamps it to the last tick, pausing when clamped; the position is not moved |
| Playback.ForwardThenBack | visualizer/main.py:194-206 | stepping forward then back returns to the same entry and tick |
| Playback.SteppingFollowsTime | visualizer/main.py:194-206 | on a sorted timeline, forward never moves the tick back and backward never moves it forward |
| Playback.LatestAtOrBefore | visualizer/main.py:101-105 | the largest snapshot tick at or before the current one, if any |
| Playback.CurrentState | visualizer/main.py:98-107 | that snapshot, or an empty dictionary when there is none or it is falsy |
| Playback.ParseHex | visualizer/main.py:224-226 | `int(s, 16)` on a non-empty run of hex digits is their value |
| Playback.ParseHexSpaces | visualizer/main.py:224-226 | `int(s, 16)` strips Unicode whitespace such as the no-break space, but not the information separators |
| Playback.StripHashes | visualizer/main.py:222 | a suffix of the input that does not start with '#' |
| Playback.HexToRgbOfDigits | visualizer/main.py:220-226 | six or eight hex digits give three or four components, each its pair's value within 0 .. 255 |
| Playback.ByteHexValue | visualizer/main.py:224-226 | a byte's two hex digits parse back as the byte |
| Playback.RgbRoundTrip | visualizer/main.py:220-226 | writing a colour as "#rrggbb" and parsing it gives the colour back |
| Text.IntToString | src/kitchen_rl/logic/interactions.py:45 | a non-empty rendering with no '_', starting with '-' exactly for negatives |
| Text.ParseIntOfIntToString | src/kitchen_rl/core/engine.py:108-110 | `int(str(i)) == i` |
| Text.Split | src/kitchen_rl/core/engine.py:92 | `s.split(sep)`: the separator-free pieces, at least one |
| Text.SplitJoin | src/kitchen_rl/core/engine.py:92 | splitting a join of separator-free pieces gives the pieces back |
| LegacyConfig.NodeIds | config.py:43-50 | the node ids in table order |
| LegacyConfig.LegacyGraph | config.py:61-71 | the graph over the configured edges with the library's distance table |
| LegacyConfig.NodeIdsAreIndices | config.py:43-50 | there are six nodes and node i has id i |
| LegacyConfig.EdgesWellFormed | config.py:53-59 | every edge joins two configured nodes and takes positive time |
| LegacyConfig.RecipesWellFormed | config.py:36-50 | each recipe's station is a process node, and each ingredient is dispensed by some source |
| LegacyConfig.RecipeOutputsAreOrderTypes | config.py:36-39 | the recipe products are exactly the two dishes orders ask for |
| LegacyConfig.GraphNodes | config.py:61-67 | the graph's nodes are exactly 0 .. 5 |
| LegacyConfig.WalkFromFloor | config.py:53-59 | every node has a walk from the floor |
| LegacyConfig.AllReachable | config.py:53-59 | every node reaches every node |
| LegacyConfig.DistanceTableComplete | config.py:70 | with the library's table, every row has every configured node |
| LegacyEntities.NewStation | entities.py:18-26 | identity from the node entry, and an empty processing state |
| LegacyEntities.Tick | entities.py:28-36 | only a working station changes; it counts down, and on reaching 0 stops and reports the end |
| LegacyEntities.StartProcessing | entities.py:38-40 | busy with the given timer; the held item is left alone |
| LegacyEntities.NewStationStaysEmpty | entities.py:17-36 | a new station never starts processing by itself |
| LegacyEntities.ProcessRunsItsDuration | entities.py:28-40 | a d-second process is done after exactly d ticks, still holding its item, and reports the end once |
| LegacyEntities.IdleStaysPut | entities.py:28-36 | a station that is not working is unchanged by any number of ticks |
| LegacyEntities.TicksKeepItem | entities.py:28-36 | ticks never change the held item or identity |
| LegacyWorld.TableStations | world.py:12-15 | one station per node, in table order |
| LegacyWorld.Init | world.py:10-23 | agent on the floor, nothing held, no orders, counters 0 |
| LegacyWorld.SpawnOrder | world.py:75-85 | the next order id, one of the two dishes, a full time-to-live |
| LegacyWorld.Reset | world.py:25-37 | clock, agent, inventory, orders and order counter reset, stations emptied, one order spawned; the uid counter is kept |
| LegacyWorld.TickSecond | world.py:47-62 | clock, stations, order countdown, then a spawn only below the order limit |
| LegacyWorld.TickTime | world.py:39-64 | `max(seconds, 0)` passes; the returned expired count is 0 for no seconds, and it plus the orders left equals the orders before plus those spawned |
| LegacyWorld.ResetIsConsistent | world.py:25-37 | a reset world satisfies the invariant |
| LegacyWorld.SpawnOrderConsistent | world.py:75-85 | a spawned order takes an id above every current one |
| LegacyWorld.TickSecondConsistent | world.py:47-62 | one pass keeps the invariant |
| LegacyWorld.TickTimeConsistent | world.py:39-64 | any number of passes keeps the invariant |
| LegacyWorld.MoveAgent | world.py:66-73 | staying costs 1 and changes nothing; another target costs the table distance (10 without an entry) and relocates; a node without a row fails |
| LegacyWorld.MoveCostsShortestDistance | world.py:66-73 | with the library's table, a move between distinct nodes costs the least walk time, never the fallback |
| LegacyWorld.CreateItem | world.py:87-89 | a new item whose uid is the incremented counter |
| LegacyWorld.UidsIncreaseAcrossReset | world.py:25-37 | since reset keeps the uid counter, a fresh item's uid exceeds every uid in the world |
| LegacyWorld.ViewStation | world.py:99-104 | a station's id, its held item's type or 0, the busy flag and the timer |
| LegacyWorld.GetSnapshot | world.py:91-106 | inventory types and orders in stored order, one entry per station in table order |
| LegacyWorld.SnapshotAfterReset | world.py:91-106 | after a reset: time 0, the floor, no items, the one order, idle stations |
| LegacyEnv.Deliver | kitchen_env.py:89-102 | one order goes per delivered item and the rest of the inventory is kept; no kept item is wanted by a remaining order; nothing is delivered iff no item matches an order; order ids stay increasing |
| LegacyEnv.DeliverCancels | kitchen_env.py:89-102 | the kept items and the remaining orders are exactly what is left when the carried types are cancelled against the ordered types: each delivered item consumes the earliest open order of its type, and both survivor lists keep their order |
| LegacyEnv.DeliverPicksMatchingOrder | kitchen_env.py:89-98 | an item handed in against two orders consumes the one of its own type, not the first in the list |
| LegacyEnv.FirstCookable | kitchen_env.py:128-130 | the first inventory item with a recipe at the station; no earlier one has one |
| LegacyEnv.HandleInteraction | kitchen_env.py:78-149 | dispatches on the type of the station under the agent; a node with no station fails |
| LegacyEnv.DeliveryEffect | kitchen_env.py:86-103 | as many orders go as items are handed in; what is left wants none of what is kept; nothing is delivered iff no item matched |
| LegacyEnv.DeliveryCancels | kitchen_env.py:86-103 | at the service window the inventory and orders left are the survivors of cancelling carried types against ordered types |
| LegacyEnv.SameMultisetNoDelivery | kitchen_env.py:86-103 | when nothing is delivered, inventory and orders come back unchanged |
| LegacyEnv.SourceEffect | kitchen_env.py:106-112 | a new item with the next uid is appended iff there is room |
| LegacyEnv.ProcessEffect | kitchen_env.py:115-147 | a finished item is retrieved when there is room; an empty station takes the first item with a recipe, retyped and timed; otherwise nothing changes |
| LegacyEnv.OtherStationNoEffect | kitchen_env.py:149 | any other station type does nothing |
| LegacyEnv.ObserveError | kitchen_env.py:166-173 | the observation reads without raising iff the agent's node has a distance row and every node id 0 .. 5 has a station entry; either missing key is a `KeyError` |
| LegacyEnv.MisnumberedStationsRaise | kitchen_env.py:172-173 | a station table without node id 0 makes the observation raise `KeyError`, whatever its length |
| LegacyEnv.ResetEnv | kitchen_env.py:42-46 | resets the world and clears the history; the first observation raises `KeyError` unless node 0 has a distance row and every node id 0 .. 5 a station entry; never raises from a valid world |
| LegacyEnv.Act | kitchen_env.py:53-64 | staying costs 1 without a move; another move costs the move; interact costs 1; a larger action costs 0 and does nothing |
| LegacyEnv.Step | kitchen_env.py:48-76 | succeeds iff the action succeeds, the new node has a distance row and every node id 0 .. 5 has a station entry; the observation's failures are `KeyError`; the clock runs once for the time taken, the snapshot is appended to the history; never terminates; truncates at `MAX_STEPS` |
| LegacyEnv.StartIsValid | kitchen_env.py:42-46 | the environment starts valid when the distance table is the library's |
| LegacyEnv.InteractKeepsValid | kitchen_env.py:78-149 | interacting keeps validity; only pickups and retrievals grow the inventory, both gated on room |
| LegacyEnv.StepKeepsValid | kitchen_env.py:48-76 | from a valid world, a step with a non-negative action never fails and leaves a valid world |
| LegacyEnv.StepTime | kitchen_env.py:53-64 | from a world the observation can read, a move to the own node costs 1 and moves nothing, and an action above interact costs nothing |
| LegacyEnv.NegativeActionStrandsAgent | kitchen_env.py:53-59 | from a valid world a negative action counts as a move to node -1; the step raises `KeyError` in the observation (line 166), and the world it leaves behind cannot interact |
| LegacyEnv.StrandedInteractFails | kitchen_env.py:80-82 | with the agent off every station node, interacting fails |
| PotatoEnv.Reset | 1.py:47-53 | at the order desk, stage 0, empty-handed, no steps |
| PotatoEnv.Move | 1.py:66-73 | the agent moves iff the target is another node joined by an edge; nothing else changes |
| PotatoEnv.Advance | 1.py:76-104 | at the current stage's node the stage rises by one (the potato is picked up at stage 1); serving at stage 5 terminates; elsewhere nothing changes |
| PotatoEnv.Step | 1.py:58-109 | the step counter rises by one; truncation iff it reaches 100; only interact terminates; a move gives the move's result; unknown actions change nothing |
| PotatoEnv.StageRule | 1.py:76-104 | the stage changes iff an interact happens at the stage's node, and by exactly one |
| PotatoEnv.ItemRule | 1.py:82-85 | the item is picked up only when stage 1 completes at the sack, and never dropped |
| PotatoEnv.TerminationRule | 1.py:99-102 | an episode ends iff the agent interacts at the client table at stage 5 |
| PotatoEnv.ResetIsValid | 1.py:47-53 | the reset state is valid |
| PotatoEnv.StepKeepsValid | 1.py:58-109 | a step keeps validity and never lowers the stage |
| PotatoEnv.CountInteracts | 1.py:76 | the number of interacts, at most the run's length |
| PotatoEnv.RunProgress | 1.py:58-109 | runs stay valid; the stage never falls and rises at most once per interact; the step count grows by the run's length |
| PotatoEnv.StagePlanServes | 1.py:23-28 | the ten-step walk through the stages reaches stage 5 at the client table, and the next interact terminates |
| StageEnv.Reset | logic.py:36-42 | at the table, stage 0, empty-handed, no steps |
| StageEnv.Move | logic.py:54-61 | the agent moves iff the target is another node joined by an edge |
| StageEnv.Step | logic.py:44-82 | counts the step; truncates at 50; terminates iff a wash succeeds; a successful recipe action raises the stage and holds an item; a refused one changes nothing else |
| StageEnv.ResetIsValid | logic.py:36-42 | the reset state is valid |
| StageEnv.MoveArrives | logic.py:16-19 | the graph is a triangle, so a move to another node always arrives |
| StageEnv.StageRule | logic.py:64-77 | the stage changes iff a recipe action succeeds, by one, and only in the order take, cook, wash |
| StageEnv.StepKeepsValid | logic.py:44-82 | a step keeps validity and never lowers the stage |
| StageEnv.RunProgress | logic.py:44-82 | runs stay valid, the stage never falls, and the step count grows by the run's length |
| StageEnv.PlanFinishes | logic.py:44-82 | take, go to the stove, cook, go to the sink: the next wash terminates |
| RecipeEnv.Reset | app.py:53-60 | at the table, stage 0, empty-handed |
| RecipeEnv.PyIndex | app.py:80 | Python list indexing: negative indexes count from the end; others past the end fail |
| RecipeEnv.Move | app.py:69-75 | along an edge the agent moves at the edge weight's cost; any other move costs 5 and stays |
| RecipeEnv.Step | app.py:62-116 | fails iff a recipe action is taken with the step index out of range; never truncates; moves and unknown actions as described |
| RecipeEnv.RecipeActionRule | app.py:78-114 | an accepted recipe action raises the stage with reward 10, or 30 and termination for the wash; a refused one gives -2 and changes nothing |
| RecipeEnv.MoveRule | app.py:69-75 | moves never change the recipe; a move onto the own node costs 5 |
| RecipeEnv.TerminationRule | app.py:103-114 | termination happens iff a wash is accepted, iff the reward is 30 |
| RecipeEnv.StepKeepsValid | app.py:62-116 | a step keeps validity and never lowers the stage |
| RecipeEnv.FinishedRecipeRaises | app.py:80-105 | once the recipe is done, a step fails iff its action is a recipe action |
| RecipeEnv.RecipeOrder | app.py:30 | an accepted action is the one the recipe names at the current step |
| RecipeEnv.FullEpisode | app.py:62-116 | take, move, cook, move, wash gives a return of 45, ending in the finished state |
| KitchenMap.ScanStep | moduls/kitchen_map.py:38-44 | absorbing one cell keeps the scan invariant |
| KitchenMap.ExtractNodes | moduls/kitchen_map.py:31-45 | a node is present iff its code occurs; its position carries the code and is the last such cell in row-major order |
| KitchenMap.Neighbours | moduls/kitchen_map.py:76 | exactly the four adjacent cells |
| KitchenMap.Layered | moduls/kitchen_map.py:71-84 | every in-grid cell no farther than the queue's head has been visited |
| KitchenMap.Closed | moduls/kitchen_map.py:76-84 | a set closed under in-grid moves from the start holds the whole grid |
| KitchenMap.Expand | moduls/kitchen_map.py:76-84 | every in-grid unvisited neighbour is marked visited and queued at d + 1, in order |
| KitchenMap.BfsDistance | moduls/kitchen_map.py:64-86 | the start is found at 0; a goal outside the grid fails; an in-grid goal is found at its Manhattan distance; each cell is dequeued at most once |
| KitchenMap.BfsStep | moduls/kitchen_map.py:71-84 | one round keeps the breadth-first invariant and shrinks the unvisited set |
| KitchenMap.BuildGraph | moduls/kitchen_map.py:47-62 | an edge joins exactly the pairs of distinct found nodes, weighted by Manhattan distance, in both directions |
| KitchenMap.NewKitchenMap | moduls/kitchen_map.py:20-29 | the found nodes and the complete graph over them with Manhattan weights |
| GameRecipes.GetRecipeResult | game/recipes.py:19-24 | the entry for a known tool accepting the state, and nothing otherwise |
| GameRecipes.EachToolOneInput | game/recipes.py:4-17 | each tool accepts exactly one input state, with the listed successor |
| GameRecipes.FinishedStatesAreFinal | game/recipes.py:4-24 | no tool accepts a fried or baked potato |
| GameRecipes.OnlyWayToFried | game/recipes.py:4-24 | from raw, chips result iff the tools are sink, table, gas stove, taking 10000 ms |
| GameRecipes.OnlyWayToBaked | game/recipes.py:4-24 | from raw, a baked potato results iff the tools are sink, oven, taking 8000 ms |
| GameRecipes.FromWashed | game/recipes.py:4-24 | from washed, table then stove give chips, and the oven alone gives a baked potato |
| GameRecipes.FromCut | game/recipes.py:4-24 | from cut, only the gas stove gives chips, and nothing gives a baked potato |

## Left out

- Rewards are left out everywhere except `app.py`, whose rewards are integers. The other rewards are floating point: potential shaping, time penalties and speed bonuses.
- Observations and the numpy observation vectors are left out. They are floating-point normalisation. Only the reads of the legacy `_get_obs` that can raise are modelled (`LegacyEnv.ObserveError`).
- `LegacyEnv.Step`: when the observation raises, the source has already moved the agent, run the clock and appended the snapshot. The model returns only the failure and does not keep that mutated state. `NegativeActionStrandsAgent` states the left-behind world separately.
- `Engine.Interact`: the source returns `result.reward`, which `InteractionResult` never defines. Every successful interaction therefore raises `AttributeError` after its mutation (src/kitchen_rl/core/engine.py:125). The model applies the mutation and does not model that exception.
- `KitchenEnv.StepInfo`: it leaves out `orders_completed` (src/kitchen_rl/env/kitchen_env.py:87). That attribute is never defined on the world.
- The `rewards` module that src/kitchen_rl/env/kitchen_env.py:10 imports is not part of this model.
- The shortest-path algorithms of the graph library are left out. The distance table is an input, constrained by `Navigation.ShortestTable` in the lemmas that need it.
- `Heuristic.GetAction`: the library's shortest-path query is an unconstrained input. It is not required to return a shortest path, or any path at all. `Heuristic.GetActionFollowsWalks` assumes only that each returned path is a walk.
- `KitchenEnv.Step`: in the source, every call raises `AttributeError`. `_get_info` (src/kitchen_rl/env/kitchen_env.py:83-88) reads `world.completed_orders`, which the world never defines, and both `reset` (line 40) and `step` (line 74) call it. The module also imports a `PotentialRewardManager` that the rewards module does not define (line 10), so it cannot be imported at all. The model returns the intended time, truncation and termination accounting instead.
- `Recorder.Reset`: it wraps the environment's `reset`, which always raises in the source for the reason given under `KitchenEnv.Step`. The model describes the intended recording behaviour.
- `Recorder.Step`: it wraps the environment's `step`, which always raises in the source for the reason given under `KitchenEnv.Step`. The model describes the intended recording behaviour.
- Randomness (`random.random`, `random.choice`) is an explicit draw per simulated second.
- Wall-clock time, uuids, file paths, gzip compression and YAML loading are left out. The configuration is a parsed value.
- JSON text is left out: key order, whitespace and escaping. The model works on JSON values, and a line is the value it encodes.
- Ticks in replay files are integers. Non-integer ticks are not modelled.
- `Playback.ParseHex`: `int(s, 16)` also accepts non-ASCII decimal digits (Arabic-Indic and other scripts); the model rejects them. Its whitespace is the full set `int` strips.
- `Text.ParseInt`: it accepts only an optional minus sign and ASCII digits. Python's `int` also accepts surrounding whitespace, a plus sign, underscores between digits and non-ASCII digits; the model reports those as failures. The engine only parses outcome strings that the interaction code builds from integers with `str`, so those forms never reach it.
- The serializer's `__enter__`/`__exit__` are left out. They only call open and close.
- `Serializers.WriteEvents`: it does not describe a failure after some events were written. A write fails only for reasons no write changes, so the first failure happens before anything is written.
- `Recorder.RecordStep`: with a keyframe interval of 0 the ACTION event is written before the modulo raises. The model reports the failure and does not keep that written line.
- The visualizer's pygame loop, rendering, sprites, `toggle_playback` and `set_speed` are left out. They only set a flag or a speed field.
- Real-valued playback speeds are left out. `_update_playback` uses `int(playback_speed)`, and that integer is the model's input.
- `LegacyWorld.TickTime`: it is not stated as a composition of shorter runs.
- A source node with no dispensed item is modelled with the item type 0 (`I_NONE`).
- `KitchenMap`: the numpy matrix is a rectangular sequence of rows. Python's dictionary iteration order in `_build_graph` becomes ascending node order. Since weights are symmetric, the resulting graph is the same.
- `PotatoEnv` and `StageEnv` rewards are left out. They are floating point.
- game/mechanics.py, moduls/recipes.py, the training scripts and every `__main__` block are not part of this model.
