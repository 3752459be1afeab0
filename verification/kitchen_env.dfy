/**
 * One step of the Gymnasium environment (src/kitchen_rl/env/kitchen_env.py):
 * how an action turns into elapsed time, the single clock tick, the outcome
 * text handed to the recorder, and the termination flags. Observations and
 * rewards are floating-point and are not modelled.
 */
module KitchenEnv {
  import opened Wrappers
  import opened Navigation
  import opened KitchenConfig
  import opened Interactions
  import opened Engine

  /** The part of `step`'s return value that is not floating point. */
  datatype StepResult = StepResult(
    world: World,
    timePassed: int,
    expired: nat,
    eventInfo: string,
    terminated: bool,
    truncated: bool)

  /** The non-reward entries of the info dictionary. */
  datatype Info = Info(time: int, ordersPending: nat, eventInfo: string)

  /** The time an action takes and the outcome text, before the clock runs. */
  function Act(w: World, action: int): (r: Result<(int, string, World)>)
    ensures action < NumNodes(w.config) ==> r == Success((MoveCost(w.nav, w.agentNode, action), "", w.(agentNode := action)))
    ensures action >= NumNodes(w.config) ==>
      (r.Success? <==> Interact(w).Success?)
      && (r.Success? ==> r.value == (1, Interact(w).value.0, Interact(w).value.1))
  {
    if action < NumNodes(w.config) then
      var (cost, w') := MoveAgent(w, action);
      Success((cost, "", w'))
    else
      var (info, w') :- Interact(w);
      Success((1, info, w'))
  }

  /**
   * `step(action)`: act, tick the world once by the time taken, and report.
   * `draws` supplies the per-second randomness of the tick.
   */
  function Step(w: World, action: int, draws: int -> Draw): (r: Result<StepResult>)
    ensures r.Success? <==> Act(w, action).Success?
    ensures r.Success? ==>
      var (time, info, acted) := Act(w, action).value;
      && r.value.timePassed == time
      && r.value.eventInfo == info
      && r.value.world.globalTime == w.globalTime + Max(time, 0)
      && r.value.world == Engine.Tick(acted, time, draws).1
      && r.value.expired == Engine.Tick(acted, time, draws).0
      && !r.value.terminated
      && (r.value.truncated <==> r.value.world.globalTime >= w.config.sim.maxSteps)
  {
    var (time, info, acted) :- Act(w, action);
    ActKeepsClock(w, action);
    var (expired, w') := Engine.Tick(acted, time, draws);
    Success(StepResult(w', time, expired, info, false, w'.globalTime >= w.config.sim.maxSteps))
  }

  /** Acting never moves the clock: only the tick that follows does. */
  lemma ActKeepsClock(w: World, action: int)
    requires Act(w, action).Success?
    ensures Act(w, action).value.2.globalTime == w.globalTime
  {
    if action >= NumNodes(w.config) {
      InteractKeepsConfig(w);
    }
  }

  /** `_get_info` without `orders_completed`, plus the event text `step` adds. */
  function StepInfo(s: StepResult): (i: Info)
    ensures i.time == s.world.globalTime && i.ordersPending == |s.world.orders| && i.eventInfo == s.eventInfo
  {
    Info(s.world.globalTime, |s.world.orders|, s.eventInfo)
  }

  /** A move never fails, and an interact always costs exactly one tick, whatever its outcome. */
  lemma StepTime(w: World, action: int, draws: int -> Draw)
    ensures action < NumNodes(w.config) ==>
      && Step(w, action, draws).Success?
      && Step(w, action, draws).value.eventInfo == ""
      && Step(w, action, draws).value.world.agentNode == action
    ensures action >= NumNodes(w.config) && Step(w, action, draws).Success? ==>
      && Step(w, action, draws).value.timePassed == 1
      && Step(w, action, draws).value.world.globalTime == w.globalTime + 1
  {
  }

  /** A step keeps the world invariant, the inventory bound and the order bound. */
  lemma StepPreserves(w: World, action: int, draws: int -> Draw)
    requires Consistent(w)
    requires |w.inventory| <= w.config.sim.maxInventory
    requires |w.orders| <= w.config.sim.maxOrders
    requires Step(w, action, draws).Success?
    ensures Consistent(Step(w, action, draws).value.world)
    ensures |Step(w, action, draws).value.world.inventory| <= w.config.sim.maxInventory
    ensures |Step(w, action, draws).value.world.orders| <= w.config.sim.maxOrders
  {
    var (time, info, acted) := Act(w, action).value;
    ActPreserves(w, action);
    TickConsistent(acted, time, draws);
    assert Step(w, action, draws).value.world == Engine.Tick(acted, time, draws).1;
  }

  /** Acting (before the clock runs) keeps the same three facts, and the configuration. */
  lemma ActPreserves(w: World, action: int)
    requires Consistent(w)
    requires |w.inventory| <= w.config.sim.maxInventory
    requires |w.orders| <= w.config.sim.maxOrders
    requires Act(w, action).Success?
    ensures var acted := Act(w, action).value.2;
      && Consistent(acted)
      && acted.config == w.config
      && |acted.inventory| <= w.config.sim.maxInventory
      && |acted.orders| <= w.config.sim.maxOrders
  {
    if action >= NumNodes(w.config) {
      InteractConsistent(w);
      InteractKeepsInventoryBound(w);
      InteractKeepsOrderBound(w);
      InteractKeepsConfig(w);
    }
  }
}
