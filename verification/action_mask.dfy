/**
 * The action mask (src/kitchen_rl/env/action_mask.py): actions 0 .. N - 1
 * move to that node and action N interacts. A move is allowed towards a
 * neighbour of the agent's node; interact is allowed when a re-implemented
 * copy of the interaction rules says an attempt would succeed.
 */
module ActionMask {
  import opened Wrappers
  import opened Entities
  import opened Navigation
  import opened KitchenConfig
  import opened Interactions
  import opened Engine

  /** `action_size`: one move per configured node plus interact. */
  function ActionSize(c: Config): nat {
    NumNodes(c) + 1
  }

  /** `ACT_INTERACT`. */
  function InteractAction(c: Config): nat {
    NumNodes(c)
  }

  /** numpy accepts an index n into an array of `size` slots when -size <= n < size. */
  predicate SlotValid(size: int, n: int) {
    -size <= n < size
  }

  /** The slot numpy writes for index n: negative indexes count from the end. */
  function Slot(size: int, n: int): (j: int)
    requires SlotValid(size, n)
    ensures 0 <= j < size
    ensures 0 <= n ==> j == n
  {
    if n < 0 then n + size else n
  }

  /** True when some recipe turns an item of this type into something at the named station. */
  function RecipeAccepts(item: Item, recipes: seq<Recipe>, stationName: string): bool {
    if |recipes| == 0 then false
    else (recipes[0].input == item.typeId && recipes[0].station == stationName)
         || RecipeAccepts(item, recipes[1..], stationName)
  }

  /** The nested `for item in inv: for r in recipes` scan of the mask's process case. */
  function AnyIngredientFits(inv: seq<Item>, recipes: seq<Recipe>, stationName: string): bool {
    if |inv| == 0 then false
    else RecipeAccepts(inv[0], recipes, stationName) || AnyIngredientFits(inv[1..], recipes, stationName)
  }

  function OrderWants(item: Item, orders: seq<Order>): bool {
    if |orders| == 0 then false
    else orders[0].itemType == item.typeId || OrderWants(item, orders[1..])
  }

  /** The nested `for item in inv: for order in orders` scan of the mask's delivery case. */
  function AnyOrderMatches(inv: seq<Item>, orders: seq<Order>): bool {
    if |inv| == 0 then false
    else OrderWants(inv[0], orders) || AnyOrderMatches(inv[1..], orders)
  }

  /** `_can_interact`, written the mask's own way (no strategy objects). */
  function CanInteract(station: StationState, inv: seq<Item>, orders: seq<Order>, config: Config): bool {
    if station.stationType == "source" then |inv| < config.sim.maxInventory
    else if station.stationType == "process" then
      if station.heldItem.Some? && !station.isBusy then |inv| < config.sim.maxInventory
      else if station.heldItem.None? then AnyIngredientFits(inv, config.recipes, station.name)
      else false
    else if station.stationType == "delivery" then AnyOrderMatches(inv, orders)
    else false
  }

  lemma {:induction false} RecipeAcceptsIff(item: Item, recipes: seq<Recipe>, name: string)
    ensures RecipeAccepts(item, recipes, name) <==> exists j :: 0 <= j < |recipes| && RecipeFits(recipes[j], item.typeId, name)
    decreases |recipes|
  {
    if |recipes| > 0 {
      RecipeAcceptsIff(item, recipes[1..], name);
      assert forall j :: 1 <= j < |recipes| ==> recipes[1..][j - 1] == recipes[j];
    }
  }

  lemma {:induction false} AnyIngredientFitsIff(inv: seq<Item>, recipes: seq<Recipe>, name: string)
    ensures AnyIngredientFits(inv, recipes, name) <==> CanPlace(inv, recipes, name)
    decreases |inv|
  {
    if |inv| > 0 {
      RecipeAcceptsIff(inv[0], recipes, name);
      AnyIngredientFitsIff(inv[1..], recipes, name);
      assert forall i :: 1 <= i < |inv| ==> inv[1..][i - 1] == inv[i];
      if CanPlace(inv, recipes, name) && !RecipeAccepts(inv[0], recipes, name) {
        var i, j :| 0 <= i < |inv| && 0 <= j < |recipes| && RecipeFits(recipes[j], inv[i].typeId, name);
        assert i > 0;
        assert RecipeFits(recipes[j], inv[1..][i - 1].typeId, name);
      }
    }
  }

  lemma {:induction false} OrderWantsIff(item: Item, orders: seq<Order>)
    ensures OrderWants(item, orders) <==> exists k :: 0 <= k < |orders| && orders[k].itemType == item.typeId
    decreases |orders|
  {
    if |orders| > 0 {
      OrderWantsIff(item, orders[1..]);
      assert forall k :: 1 <= k < |orders| ==> orders[1..][k - 1] == orders[k];
    }
  }

  lemma {:induction false} AnyOrderMatchesIff(inv: seq<Item>, orders: seq<Order>)
    ensures AnyOrderMatches(inv, orders) <==> CanDeliver(inv, orders)
    decreases |inv|
  {
    if |inv| > 0 {
      OrderWantsIff(inv[0], orders);
      AnyOrderMatchesIff(inv[1..], orders);
      assert forall i :: 1 <= i < |inv| ==> inv[1..][i - 1] == inv[i];
      if CanDeliver(inv, orders) && !OrderWants(inv[0], orders) {
        var i, k :| 0 <= i < |inv| && 0 <= k < |orders| && orders[k].itemType == inv[i].typeId;
        assert i > 0;
        assert orders[k].itemType == inv[1..][i - 1].typeId;
      }
    }
  }

  /**
   * The mask's copy of the rules agrees with the strategies: interact is
   * allowed exactly when an attempt at this station would succeed.
   */
  lemma CanInteractIffAttemptSucceeds(station: StationState, inv: seq<Item>, orders: seq<Order>, config: Config)
    ensures CanInteract(station, inv, orders, config) == AttemptInteraction(station, inv, orders, config).success
  {
    AnyIngredientFitsIff(inv, config.recipes, station.name);
    AnyOrderMatchesIff(inv, orders);
  }

  /** `get_mask` returns normally: the agent is a graph node, every neighbour is a usable index, and the agent is at a station. */
  predicate MaskDefined(w: World) {
    && Neighbors(w.nav, w.agentNode).Success?
    && (forall n :: n in Neighbors(w.nav, w.agentNode).value ==> SlotValid(ActionSize(w.config), n))
    && w.agentNode in w.stations
  }

  /** What a returned mask holds: slot j is set iff a neighbour lands on it, or j is interact and interacting is possible. */
  predicate MaskMeans(w: World, mask: seq<bool>)
    requires MaskDefined(w)
  {
    var size := ActionSize(w.config);
    var nb := Neighbors(w.nav, w.agentNode).value;
    && |mask| == size
    && forall j :: 0 <= j < size ==>
         (mask[j] <==>
            Marked(size, nb, j)
            || (j == InteractAction(w.config) && CanInteract(w.stations[w.agentNode], w.inventory, w.orders, w.config)))
  }

  /** Some index of `ns` lands on slot j. */
  predicate Marked(size: int, ns: set<int>, j: int) {
    exists n :: n in ns && SlotValid(size, n) && Slot(size, n) == j
  }

  /**
   * The movement loop of `get_mask`: sets the slot of every index in `ns`,
   * or fails when one of them is out of numpy's range.
   */
  method MarkSlots(size: nat, ns: set<int>) returns (r: Option<seq<bool>>)
    ensures r.Some? <==> forall n :: n in ns ==> SlotValid(size, n)
    ensures r.Some? ==> |r.value| == size && forall j :: 0 <= j < size ==> (r.value[j] <==> Marked(size, ns, j))
  {
    var mask := seq(size, _ => false);
    var rest := ns;
    var done: set<int> := {};
    while rest != {}
      invariant rest + done == ns && rest !! done
      invariant |mask| == size
      invariant forall n :: n in done ==> SlotValid(size, n)
      invariant forall j :: 0 <= j < size ==> (mask[j] <==> Marked(size, done, j))
      decreases |rest|
    {
      HasMember(rest);
      var n :| n in rest;
      if !SlotValid(size, n) {
        return None;
      }
      MarkStep(size, mask, done, n);
      mask := mask[Slot(size, n) := true];
      rest := rest - {n};
      done := done + {n};
    }
    return Some(mask);
  }

  lemma MarkStep(size: nat, mask: seq<bool>, done: set<int>, n: int)
    requires |mask| == size && SlotValid(size, n)
    requires forall j :: 0 <= j < size ==> (mask[j] <==> Marked(size, done, j))
    ensures forall j :: 0 <= j < size ==> (mask[Slot(size, n) := true][j] <==> Marked(size, done + {n}, j))
  {
    forall j | 0 <= j < size
      ensures mask[Slot(size, n) := true][j] <==> Marked(size, done + {n}, j)
    {
      if Marked(size, done + {n}, j) && j != Slot(size, n) {
        var m :| m in done + {n} && SlotValid(size, m) && Slot(size, m) == j;
        assert m in done;
      }
    }
  }

  /** `get_mask`: mark every neighbour's slot, then the interact slot if interacting is possible. */
  method GetMask(w: World) returns (r: Result<seq<bool>>)
    ensures r.Success? <==> MaskDefined(w)
    ensures r.Success? ==> MaskMeans(w, r.value)
  {
    var size := ActionSize(w.config);
    var nbr := Neighbors(w.nav, w.agentNode);
    if nbr.Failure? {
      return Failure(nbr.error);
    }
    var marked := MarkSlots(size, nbr.value);
    if marked.None? {
      return Failure("IndexError: index out of bounds for the mask");
    }
    if w.agentNode !in w.stations {
      return Failure("KeyError: agent is not at a station");
    }
    var mask := marked.value;
    if CanInteract(w.stations[w.agentNode], w.inventory, w.orders, w.config) {
      mask := mask[InteractAction(w.config) := true];
    }
    return Success(mask);
  }

  /** The graph the engine builds from the configuration. */
  predicate Wired(w: World) {
    w.nav.nodeIds == NodeIds(w.config.nodes) && w.nav.edges == w.config.edges
  }

  /**
   * For a configuration whose node ids are 0 .. N - 1, the mask is defined at
   * every station node, move j is allowed iff node j is adjacent to the
   * agent, and interact is allowed iff an attempt would succeed.
   */
  lemma MaskOnIndexedConfig(w: World, mask: seq<bool>)
    requires IndexedNodes(w.config) && Wired(w)
    requires 0 <= w.agentNode < NumNodes(w.config) && w.agentNode in w.stations
    ensures MaskDefined(w)
    ensures MaskMeans(w, mask) ==>
      && (forall j :: 0 <= j < NumNodes(w.config) ==> (mask[j] <==> Adjacent(w.nav, w.agentNode, j)))
      && (mask[InteractAction(w.config)] <==>
            AttemptInteraction(w.stations[w.agentNode], w.inventory, w.orders, w.config).success)
  {
    var size := ActionSize(w.config);
    var n := NumNodes(w.config);
    assert w.nav.nodeIds[w.agentNode] == w.agentNode;
    var nb := Neighbors(w.nav, w.agentNode).value;
    forall v | v in nb ensures 0 <= v < n {
      var i :| 0 <= i < |w.nav.edges| && Connects(w.nav.edges[i], w.agentNode, v);
    }
    if MaskMeans(w, mask) {
      forall j | 0 <= j < n ensures mask[j] <==> Adjacent(w.nav, w.agentNode, j) {
        if Adjacent(w.nav, w.agentNode, j) {
          assert j in nb && SlotValid(size, j) && Slot(size, j) == j;
        }
      }
      assert !Marked(size, nb, n);
      CanInteractIffAttemptSucceeds(w.stations[w.agentNode], w.inventory, w.orders, w.config);
    }
  }

  /** The mask is a function of the world alone: two calls on the same world agree entry for entry. */
  lemma MaskDeterministic(w: World, a: seq<bool>, b: seq<bool>)
    requires MaskDefined(w) && MaskMeans(w, a) && MaskMeans(w, b)
    ensures a == b
  {
  }
}
