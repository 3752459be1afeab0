/**
 * The three-stage environment of the prototype script logic.py: take an item
 * at the table, cook it on the stove, wash up at the sink, on a triangle
 * graph. Each of the three recipe actions has its own action id. Rewards are
 * floating point and are not part of the model.
 */
module StageEnv {
  import opened Wrappers
  import Navigation

  /** Node ids. */
  const Stol := 0
  const Plita := 1
  const Moyka := 2

  /** `graph.number_of_nodes()`: the three nodes the edges mention. */
  const NumNodes := 3
  const Take := 3
  const Cook := 4
  const Wash := 5
  const FinalStage := 3
  const MaxSteps := 50

  const Edges: seq<Navigation.Edge> := [
    Navigation.Edge(Stol, Plita, 2),
    Navigation.Edge(Plita, Moyka, 3),
    Navigation.Edge(Stol, Moyka, 4)
  ]

  predicate HasEdge(a: int, b: int) {
    Navigation.EdgeWeight(Edges, a, b).Some?
  }

  datatype State = State(node: int, recipeStep: int, hasItem: int, currentStep: int)

  datatype StepOut = StepOut(state: State, terminated: bool, truncated: bool)

  /** `reset`: at the table, nothing done, empty-handed, no steps taken. */
  function Reset(): (s: State)
    ensures s.node == Stol && s.recipeStep == 0 && s.hasItem == 0 && s.currentStep == 0
  {
    State(Stol, 0, 0, 0)
  }

  /** A move action: only along an edge, never onto the node the agent is on. */
  function Move(s: State, target: int): (s': State)
    ensures s'.node != s.node <==> target != s.node && HasEdge(s.node, target)
    ensures s'.node == target || s'.node == s.node
    ensures s' == s.(node := s'.node)
  {
    if target == s.node then s
    else if HasEdge(s.node, target) then s.(node := target)
    else s
  }

  /** Whether recipe action `action` succeeds in `s`. */
  predicate Succeeds(s: State, action: int) {
    || (action == Take && s.recipeStep == 0 && s.node == Stol)
    || (action == Cook && s.recipeStep == 1 && s.node == Plita && s.hasItem == 1)
    || (action == Wash && s.recipeStep == 2 && s.node == Moyka && s.hasItem == 1)
  }

  /** `step(action)`: count the step, then move, take, cook, wash or ignore the action. */
  function Step(s: State, action: int): (r: StepOut)
    ensures r.state.currentStep == s.currentStep + 1
    ensures r.truncated <==> r.state.currentStep >= MaxSteps
    ensures r.terminated <==> Succeeds(s, action) && action == Wash
    ensures Succeeds(s, action) ==> r.state.recipeStep == s.recipeStep + 1 && r.state.hasItem == 1
    ensures !Succeeds(s, action) && action >= NumNodes ==> r.state == s.(currentStep := r.state.currentStep)
    ensures action < NumNodes ==> r.state == Move(s, action).(currentStep := r.state.currentStep)
  {
    var counted := s.(currentStep := s.currentStep + 1);
    var (terminated, s') :=
      if action < NumNodes then (false, Move(counted, action))
      else if action == Take then
        if s.recipeStep == 0 && s.node == Stol then (false, counted.(hasItem := 1, recipeStep := 1))
        else (false, counted)
      else if action == Cook then
        if s.recipeStep == 1 && s.node == Plita && s.hasItem == 1 then (false, counted.(recipeStep := 2))
        else (false, counted)
      else if action == Wash then
        if s.recipeStep == 2 && s.node == Moyka && s.hasItem == 1 then (true, counted.(recipeStep := 3))
        else (false, counted)
      else (false, counted);
    StepOut(s', terminated, s'.currentStep >= MaxSteps)
  }

  predicate Valid(s: State) {
    && 0 <= s.node < NumNodes
    && 0 <= s.recipeStep <= FinalStage
    && s.hasItem == (if s.recipeStep >= 1 then 1 else 0)
    && s.currentStep >= 0
  }

  lemma ResetIsValid()
    ensures Valid(Reset())
  {
  }

  /** Every pair of distinct nodes is joined, so a move to another node always arrives. */
  lemma MoveArrives(s: State, target: int)
    requires 0 <= s.node < NumNodes && 0 <= target < NumNodes && target != s.node
    ensures Step(s, target).state.node == target
  {
    assert exists i :: 0 <= i < |Edges| && Navigation.Connects(Edges[i], s.node, target) by {
      if {s.node, target} == {Stol, Plita} {
        assert Navigation.Connects(Edges[0], s.node, target);
      } else if {s.node, target} == {Plita, Moyka} {
        assert Navigation.Connects(Edges[1], s.node, target);
      } else {
        assert Navigation.Connects(Edges[2], s.node, target);
      }
    }
  }

  /**
   * The stage changes only by a succeeding recipe action, by exactly one, and
   * the three actions are accepted only in the order take, cook, wash.
   */
  lemma StageRule(s: State, action: int)
    ensures var r := Step(s, action);
      && (r.state.recipeStep != s.recipeStep <==> Succeeds(s, action))
      && (r.state.recipeStep != s.recipeStep ==> r.state.recipeStep == s.recipeStep + 1)
      && (Succeeds(s, action) ==> action == Take + s.recipeStep)
  {
  }

  /** Steps keep the agent on the graph, the stage within 0 .. 3 and monotone, and the item flag in line with it. */
  lemma StepKeepsValid(s: State, action: int)
    requires Valid(s)
    ensures Valid(Step(s, action).state)
    ensures Step(s, action).state.recipeStep >= s.recipeStep
  {
    var r := Step(s, action);
    if action < NumNodes && r.state.node != s.node {
      assert HasEdge(s.node, action);
      var i :| 0 <= i < |Edges| && Navigation.Connects(Edges[i], s.node, action);
    }
  }

  function Run(s: State, actions: seq<int>): (s': State)
    decreases |actions|
  {
    if |actions| == 0 then s else Run(Step(s, actions[0]).state, actions[1..])
  }

  /** Runs from a valid state stay valid, the stage never falls, and the step count is the run's length. */
  lemma {:induction false} RunProgress(s: State, actions: seq<int>)
    requires Valid(s)
    ensures Valid(Run(s, actions))
    ensures s.recipeStep <= Run(s, actions).recipeStep
    ensures Run(s, actions).currentStep == s.currentStep + |actions|
    decreases |actions|
  {
    if |actions| > 0 {
      StepKeepsValid(s, actions[0]);
      RunProgress(Step(s, actions[0]).state, actions[1..]);
    }
  }

  /** Take, go to the stove, cook, go to the sink, wash: the episode ends on the fifth step. */
  lemma PlanFinishes()
    ensures var s := Run(Reset(), [Take, Plita, Cook, Moyka]);
      && s == State(Moyka, 2, 1, 4)
      && Step(s, Wash).terminated
  {
    var s0 := Reset();
    var s1 := Step(s0, Take).state;
    MoveArrives(s1, Plita);
    var s2 := Step(s1, Plita).state;
    var s3 := Step(s2, Cook).state;
    MoveArrives(s3, Moyka);
    var s4 := Step(s3, Moyka).state;
    var plan := [Take, Plita, Cook, Moyka];
    assert Run(s0, plan) == Run(s1, plan[1..]);
    assert Run(s1, plan[1..]) == Run(s2, plan[2..]);
    assert Run(s2, plan[2..]) == Run(s3, plan[3..]);
    assert Run(s3, plan[3..]) == Run(s4, plan[4..]);
  }
}
