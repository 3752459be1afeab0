/**
 * The six-stage potato environment of the prototype script 1.py: an agent
 * walks a fixed six-node graph and advances a recipe (take the order, take a
 * potato, wash, cut, fry, serve) one stage at a time by interacting at the
 * node that belongs to the current stage. Rewards are floating point and are
 * not part of the model; the state, the termination flag and the truncation
 * flag are.
 */
module PotatoEnv {
  import opened Wrappers
  import Navigation

  /** Node ids. */
  const Zakaz := 0
  const Meshok := 1
  const Rakovina := 2
  const Stol := 3
  const Plita := 4
  const Stolik := 5

  const NumNodes := 6
  /** The stage reached when the dish has been served. */
  const FinalStage := 6
  /** Action 6 interacts; 0 .. 5 move. */
  const Interact := 6
  const MaxSteps := 100

  /** The undirected edges with their weights, in the order they are added. */
  const Edges: seq<Navigation.Edge> := [
    Navigation.Edge(Zakaz, Meshok, 2),
    Navigation.Edge(Meshok, Rakovina, 2),
    Navigation.Edge(Rakovina, Stol, 2),
    Navigation.Edge(Stol, Plita, 2),
    Navigation.Edge(Plita, Stolik, 2),
    Navigation.Edge(Zakaz, Stolik, 5)
  ]

  /** The node where stage `k` (0 .. 5) is completed by an interact. */
  const StageNodes: seq<int> := [Zakaz, Meshok, Rakovina, Stol, Plita, Stolik]

  predicate HasEdge(a: int, b: int) {
    Navigation.EdgeWeight(Edges, a, b).Some?
  }

  datatype State = State(node: int, recipeStep: int, hasItem: int, currentStep: int)

  datatype StepOut = StepOut(state: State, terminated: bool, truncated: bool)

  /** `reset`: at the order desk, nothing done, empty-handed, no steps taken. */
  function Reset(): (s: State)
    ensures s.node == Zakaz && s.recipeStep == 0 && s.hasItem == 0 && s.currentStep == 0
  {
    State(Zakaz, 0, 0, 0)
  }

  /** The agent's position after a move action: only along an edge. */
  function Move(s: State, target: int): (s': State)
    ensures s'.node == target || s'.node == s.node
    ensures s'.node != s.node <==> target != s.node && HasEdge(s.node, target)
    ensures s' == s.(node := s'.node)
  {
    if target == s.node then s
    else if HasEdge(s.node, target) then s.(node := target)
    else s
  }

  /** Whether an interact in `s` completes the current stage. */
  predicate AtStageNode(s: State) {
    0 <= s.recipeStep < |StageNodes| && s.node == StageNodes[s.recipeStep]
  }

  /** The interact action: complete the current stage, or do nothing. */
  function Advance(s: State): (r: (bool, State))
    ensures AtStageNode(s) ==> r.1.recipeStep == s.recipeStep + 1
    ensures !AtStageNode(s) ==> r == (false, s)
    ensures r.0 <==> AtStageNode(s) && s.recipeStep == FinalStage - 1
    ensures r.1.hasItem == (if AtStageNode(s) && s.recipeStep == 1 then 1 else s.hasItem)
    ensures r.1.node == s.node && r.1.currentStep == s.currentStep
  {
    if s.recipeStep == 0 && s.node == Zakaz then (false, s.(recipeStep := 1))
    else if s.recipeStep == 1 && s.node == Meshok then (false, s.(recipeStep := 2, hasItem := 1))
    else if s.recipeStep == 2 && s.node == Rakovina then (false, s.(recipeStep := 3))
    else if s.recipeStep == 3 && s.node == Stol then (false, s.(recipeStep := 4))
    else if s.recipeStep == 4 && s.node == Plita then (false, s.(recipeStep := 5))
    else if s.recipeStep == 5 && s.node == Stolik then (true, s.(recipeStep := 6))
    else (false, s)
  }

  /** `step(action)`: count the step, then move, interact or ignore the action. */
  function Step(s: State, action: int): (r: StepOut)
    ensures r.state.currentStep == s.currentStep + 1
    ensures r.truncated <==> r.state.currentStep >= MaxSteps
    ensures r.terminated ==> action == Interact
    ensures action < NumNodes ==> r.state == Move(s, action).(currentStep := s.currentStep + 1)
    ensures action > Interact ==> r.state == s.(currentStep := s.currentStep + 1) && !r.terminated
  {
    var counted := s.(currentStep := s.currentStep + 1);
    var (terminated, s') :=
      if action < NumNodes then (false, Move(counted, action))
      else if action == Interact then Advance(counted)
      else (false, counted);
    StepOut(s', terminated, s'.currentStep >= MaxSteps)
  }

  /** The states an episode can be in. */
  predicate Valid(s: State) {
    && 0 <= s.node < NumNodes
    && 0 <= s.recipeStep <= FinalStage
    && s.hasItem == (if s.recipeStep >= 2 then 1 else 0)
    && s.currentStep >= 0
  }

  /** The stage changes only by one, only by interacting at that stage's node. */
  lemma StageRule(s: State, action: int)
    ensures var r := Step(s, action);
      && (r.state.recipeStep != s.recipeStep <==> action == Interact && AtStageNode(s))
      && (r.state.recipeStep != s.recipeStep ==> r.state.recipeStep == s.recipeStep + 1)
  {
  }

  /** The item is picked up only when stage 1 completes at the potato sack, and never dropped. */
  lemma ItemRule(s: State, action: int)
    ensures var r := Step(s, action);
      && (r.state.hasItem != s.hasItem ==> action == Interact && s.recipeStep == 1 && s.node == Meshok && r.state.hasItem == 1)
      && (s.hasItem == 1 ==> r.state.hasItem == 1)
  {
  }

  /** An episode ends only by serving the fried potato at the client table. */
  lemma TerminationRule(s: State, action: int)
    ensures Step(s, action).terminated <==> action == Interact && s.recipeStep == 5 && s.node == Stolik
  {
  }

  lemma ResetIsValid()
    ensures Valid(Reset())
  {
  }

  /** Steps keep the agent on the graph, the stage within 0 .. 6 and the item flag in line with it. */
  lemma StepKeepsValid(s: State, action: int)
    requires Valid(s)
    ensures Valid(Step(s, action).state)
    ensures Step(s, action).state.recipeStep >= s.recipeStep
  {
    var r := Step(s, action);
    if action < NumNodes && r.state.node != s.node {
      assert HasEdge(s.node, action);
      var i :| 0 <= i < |Edges| && Navigation.Connects(Edges[i], s.node, action);
    }
  }

  /** The state after a sequence of actions (ignoring the flags). */
  function Run(s: State, actions: seq<int>): (s': State)
    decreases |actions|
  {
    if |actions| == 0 then s else Run(Step(s, actions[0]).state, actions[1..])
  }

  function CountInteracts(actions: seq<int>): (n: nat)
    ensures n <= |actions|
    decreases |actions|
  {
    if |actions| == 0 then 0
    else (if actions[0] == Interact then 1 else 0) + CountInteracts(actions[1..])
  }

  /**
   * Along any run from a valid state the stage never decreases, stays valid,
   * and rises by at most one per interact, so a dish needs at least six interacts.
   */
  lemma {:induction false} RunProgress(s: State, actions: seq<int>)
    requires Valid(s)
    ensures Valid(Run(s, actions))
    ensures s.recipeStep <= Run(s, actions).recipeStep <= s.recipeStep + CountInteracts(actions)
    ensures Run(s, actions).currentStep == s.currentStep + |actions|
    decreases |actions|
  {
    if |actions| > 0 {
      StepKeepsValid(s, actions[0]);
      StageRule(s, actions[0]);
      RunProgress(Step(s, actions[0]).state, actions[1..]);
    }
  }

  /** Walking the stages in order serves the dish in eleven steps. */
  lemma StagePlanServes()
    ensures var s := Run(Reset(), [Interact, Meshok, Interact, Rakovina, Interact, Stol, Interact, Plita, Interact, Stolik]);
      && s.recipeStep == 5 && s.node == Stolik && s.currentStep == 10
      && Step(s, Interact).terminated
  {
    var plan := [Interact, Meshok, Interact, Rakovina, Interact, Stol, Interact, Plita, Interact, Stolik];
    var trace := [State(Zakaz, 0, 0, 0), State(Zakaz, 1, 0, 1), State(Meshok, 1, 0, 2), State(Meshok, 2, 1, 3),
                  State(Rakovina, 2, 1, 4), State(Rakovina, 3, 1, 5), State(Stol, 3, 1, 6), State(Stol, 4, 1, 7),
                  State(Plita, 4, 1, 8), State(Plita, 5, 1, 9), State(Stolik, 5, 1, 10)];
    assert Navigation.Connects(Edges[0], Zakaz, Meshok);
    assert Navigation.Connects(Edges[1], Meshok, Rakovina);
    assert Navigation.Connects(Edges[2], Rakovina, Stol);
    assert Navigation.Connects(Edges[3], Stol, Plita);
    assert Navigation.Connects(Edges[4], Plita, Stolik);
    forall i | 0 <= i < |plan| ensures Step(trace[i], plan[i]).state == trace[i + 1] {
      if i % 2 == 1 {
        assert HasEdge(trace[i].node, plan[i]);
      }
    }
    RunFollowsTrace(trace, plan);
  }

  /** A run visits the states of a trace whose consecutive states are linked by the actions' steps. */
  lemma {:induction false} RunFollowsTrace(trace: seq<State>, plan: seq<int>)
    requires |trace| == |plan| + 1
    requires forall i :: 0 <= i < |plan| ==> Step(trace[i], plan[i]).state == trace[i + 1]
    ensures Run(trace[0], plan) == trace[|plan|]
    decreases |plan|
  {
    if |plan| > 0 {
      RunFollowsTrace(trace[1..], plan[1..]);
    }
  }
}
