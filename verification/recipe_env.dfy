/**
 * The recipe-list environment of the prototype script app.py: the recipe is
 * the list ["take", "cook", "wash"], a recipe action succeeds only when the
 * list names it at the current step, and rewards are integers. The episode is
 * never truncated. After the dish is done the step index equals the list's
 * length, so a further recipe action indexes past its end and raises.
 */
module RecipeEnv {
  import opened Wrappers
  import Navigation

  const Stol := 0
  const Plita := 1
  const Moyka := 2
  const NumNodes := 3
  const Take := NumNodes
  const Cook := NumNodes + 1
  const Wash := NumNodes + 2

  /** Penalties: a move that is not along an edge, and a refused recipe action. */
  const BlockedMovePenalty := 5
  const RefusedPenalty := 2
  const StageReward := 10
  const FinishBonus := 20

  const Recipe: seq<string> := ["take", "cook", "wash"]

  const Edges: seq<Navigation.Edge> := [
    Navigation.Edge(0, 1, 2),
    Navigation.Edge(1, 2, 3),
    Navigation.Edge(0, 2, 4)
  ]

  datatype State = State(node: int, recipeStep: int, hasItem: int)

  datatype StepOut = StepOut(state: State, reward: int, terminated: bool, truncated: bool)

  function Reset(): (s: State)
    ensures s.node == Stol && s.recipeStep == 0 && s.hasItem == 0
  {
    State(Stol, 0, 0)
  }

  /** Python list indexing: negative indices count from the end, others past it raise. */
  function PyIndex<T>(xs: seq<T>, k: int): (r: Result<T>)
    ensures r.Success? <==> -|xs| <= k < |xs|
    ensures 0 <= k < |xs| ==> r == Success(xs[k])
    ensures -|xs| <= k < 0 ==> r == Success(xs[|xs| + k])
  {
    if 0 <= k < |xs| then Success(xs[k])
    else if -|xs| <= k < 0 then Success(xs[|xs| + k])
    else Failure("IndexError: list index out of range")
  }

  /** The recipe action a given action id stands for. */
  function ActionName(action: int): string
  {
    if action == Take then "take" else if action == Cook then "cook" else "wash"
  }

  /** The node and held-item flag each recipe action needs. */
  function Needs(action: int): (int, int)
  {
    if action == Take then (Stol, 0) else if action == Cook then (Plita, 1) else (Moyka, 1)
  }

  /** A move: along an edge it relocates and costs the edge weight; anything else costs 5 and stays. */
  function Move(s: State, target: int): (r: StepOut)
    ensures Navigation.EdgeWeight(Edges, s.node, target).Some? ==>
      r == StepOut(s.(node := target), -Navigation.EdgeWeight(Edges, s.node, target).value, false, false)
    ensures Navigation.EdgeWeight(Edges, s.node, target).None? ==>
      r == StepOut(s, -BlockedMovePenalty, false, false)
  {
    match Navigation.EdgeWeight(Edges, s.node, target)
    case Some(w) => StepOut(s.(node := target), -w, false, false)
    case None => StepOut(s, -BlockedMovePenalty, false, false)
  }

  /** `step(action)`; a recipe action whose step index is past the recipe raises. */
  function Step(s: State, action: int): (r: Result<StepOut>)
    ensures r.Failure? <==> Take <= action <= Wash && PyIndex(Recipe, s.recipeStep).Failure?
    ensures r.Success? ==> !r.value.truncated
    ensures r.Success? && action < NumNodes ==> r.value == Move(s, action)
    ensures r.Success? && action > Wash ==> r.value == StepOut(s, 0, false, false)
  {
    if action < NumNodes then Success(Move(s, action))
    else if action <= Wash then
      var name :- PyIndex(Recipe, s.recipeStep);
      var (node, item) := Needs(action);
      if name == ActionName(action) && s.node == node && s.hasItem == item then
        var s' := s.(recipeStep := s.recipeStep + 1, hasItem := if action == Take then 1 else s.hasItem);
        if action == Wash then Success(StepOut(s', StageReward + FinishBonus, true, false))
        else Success(StepOut(s', StageReward, false, false))
      else Success(StepOut(s, -RefusedPenalty, false, false))
    else Success(StepOut(s, 0, false, false))
  }

  /** The recipe action `action` succeeds in `s`. */
  predicate Accepted(s: State, action: int) {
    && Take <= action <= Wash
    && PyIndex(Recipe, s.recipeStep) == Success(ActionName(action))
    && s.node == Needs(action).0
    && s.hasItem == Needs(action).1
  }

  predicate Valid(s: State) {
    && 0 <= s.node < NumNodes
    && 0 <= s.recipeStep <= |Recipe|
    && s.hasItem == (if s.recipeStep >= 1 then 1 else 0)
  }

  /**
   * From a valid state, a recipe action either succeeds (the stage rises by
   * one, reward 10, or 30 and termination for the wash) or is refused with
   * reward -2 and no change at all.
   */
  lemma RecipeActionRule(s: State, action: int)
    requires Valid(s) && s.recipeStep < |Recipe| && Take <= action <= Wash
    ensures Step(s, action).Success?
    ensures var r := Step(s, action).value;
      && (Accepted(s, action) ==>
            && r.state == s.(recipeStep := s.recipeStep + 1, hasItem := 1)
            && r.reward == (if action == Wash then 30 else 10)
            && r.terminated == (action == Wash))
      && (!Accepted(s, action) ==> r == StepOut(s, -2, false, false))
  {
  }

  /** Moves never change the recipe; a move onto the agent's own node is blocked, since the graph has no loops. */
  lemma MoveRule(s: State, target: int)
    requires target < NumNodes
    ensures Step(s, target).Success?
    ensures Step(s, target).value.state.recipeStep == s.recipeStep
    ensures Step(s, target).value.state.hasItem == s.hasItem
    ensures target == s.node ==> Step(s, target).value == StepOut(s, -5, false, false)
  {
    if target == s.node {
      assert forall i :: 0 <= i < |Edges| ==> !Navigation.Connects(Edges[i], s.node, target);
    }
  }

  /** Termination happens exactly on a successful wash, and that step is worth 30. */
  lemma TerminationRule(s: State, action: int)
    requires Step(s, action).Success?
    ensures Step(s, action).value.terminated <==> Accepted(s, action) && action == Wash
    ensures Step(s, action).value.terminated <==> Step(s, action).value.reward == 30
  {
    var r := Step(s, action).value;
    if action < NumNodes {
      match Navigation.EdgeWeight(Edges, s.node, action)
      case Some(w) =>
        var i :| 0 <= i < |Edges| && Navigation.Connects(Edges[i], s.node, action) && Edges[i].weight == w;
      case None =>
    }
  }

  lemma StepKeepsValid(s: State, action: int)
    requires Valid(s)
    requires Step(s, action).Success?
    ensures Valid(Step(s, action).value.state)
    ensures Step(s, action).value.state.recipeStep >= s.recipeStep
  {
    var r := Step(s, action).value;
    if action < NumNodes && r.state.node != s.node {
      var i :| 0 <= i < |Edges| && Navigation.Connects(Edges[i], s.node, action);
    }
  }

  /** Once the dish is done every recipe action raises, while moves and other actions still run. */
  lemma FinishedRecipeRaises(s: State, action: int)
    requires s.recipeStep == |Recipe|
    ensures Step(s, action).Failure? <==> Take <= action <= Wash
  {
  }

  /** The only way through the recipe: take at the table, cook at the stove, wash at the sink. */
  lemma RecipeOrder(s: State, action: int)
    requires Valid(s) && Accepted(s, action)
    ensures action == Take + s.recipeStep
  {
  }

  /** The rewards of a run, or the error that ended it. */
  function Rewards(s: State, actions: seq<int>): (r: Result<(State, int)>)
    decreases |actions|
  {
    if |actions| == 0 then Success((s, 0))
    else
      var out :- Step(s, actions[0]);
      var (last, total) :- Rewards(out.state, actions[1..]);
      Success((last, out.reward + total))
  }

  /** A full episode: take, move to the stove, cook, move to the sink, wash. Its return is 45. */
  lemma FullEpisode()
    ensures Rewards(Reset(), [Take, Plita, Cook, Moyka, Wash]) == Success((State(Moyka, 3, 1), 45))
    ensures Step(State(Moyka, 2, 1), Wash) == Success(StepOut(State(Moyka, 3, 1), 30, true, false))
  {
    var plan := [Take, Plita, Cook, Moyka, Wash];
    var s0 := Reset();
    var s1 := State(Stol, 1, 1);
    var s2 := State(Plita, 1, 1);
    var s3 := State(Plita, 2, 1);
    var s4 := State(Moyka, 2, 1);
    var s5 := State(Moyka, 3, 1);
    assert Step(s0, Take) == Success(StepOut(s1, 10, false, false));
    assert Navigation.EdgeWeight(Edges, Stol, Plita) == Some(2);
    assert Step(s1, Plita) == Success(StepOut(s2, -2, false, false));
    assert Step(s2, Cook) == Success(StepOut(s3, 10, false, false));
    assert Navigation.EdgeWeight(Edges, Plita, Moyka) == Some(3);
    assert Step(s3, Moyka) == Success(StepOut(s4, -3, false, false));
    assert Step(s4, Wash) == Success(StepOut(s5, 30, true, false));
    assert Rewards(s4, plan[4..]) == Success((s5, 30));
    assert Rewards(s3, plan[3..]) == Success((s5, 27));
    assert Rewards(s2, plan[2..]) == Success((s5, 37));
    assert Rewards(s1, plan[1..]) == Success((s5, 35));
  }
}
