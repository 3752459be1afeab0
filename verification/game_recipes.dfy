/**
 * The item-transformation table of the platformer prototype (game/recipes.py):
 * each tool turns an item in one particular state into the next state, with
 * a display name, a sprite key and a processing time in milliseconds.
 */
module GameRecipes {
  import opened Wrappers

  datatype Process = Process(nextState: string, name: string, image: string, time: int)

  /** `PROCESSES`: tool, then accepted input state, then the transformation. */
  const Processes: map<string, map<string, Process>> := map[
    "sink" := map["raw" := Process("washed", "Помытая картошка", "potato", 3000)],
    "table" := map["washed" := Process("cut", "Нарезанная картошка", "potato", 3000)],
    "gas-stove" := map["cut" := Process("fried", "Чипсы", "chips", 4000)],
    "oven" := map["washed" := Process("baked", "Печеная картошка", "potato_red", 5000)]
  ]

  /**
   * `get_recipe_result(tool, state)`: the table entry, or nothing when the
   * tool is unknown, its table is empty (a falsy dictionary), or it does not
   * accept the state.
   */
  function GetRecipeResult(tool: string, state: string): (r: Option<Process>)
    ensures tool !in Processes ==> r.None?
    ensures tool in Processes && state !in Processes[tool] ==> r.None?
    ensures tool in Processes && state in Processes[tool] ==> r == Some(Processes[tool][state])
  {
    if tool in Processes && |Processes[tool]| > 0 && state in Processes[tool] then Some(Processes[tool][state])
    else None
  }

  /** Apply tools in order; the final state and total time, or nothing if some tool refuses. */
  function ApplyTools(state: string, tools: seq<string>): (r: Option<(string, int)>)
    decreases |tools|
  {
    if |tools| == 0 then Some((state, 0))
    else
      match GetRecipeResult(tools[0], state)
      case None => None
      case Some(p) =>
        match ApplyTools(p.nextState, tools[1..])
        case None => None
        case Some((last, t)) => Some((last, p.time + t))
  }

  /** The state each tool accepts: every tool takes exactly one input state. */
  lemma EachToolOneInput()
    ensures forall tool :: tool in Processes ==> |Processes[tool].Keys| == 1
    ensures Processes["sink"].Keys == {"raw"} && Processes["sink"]["raw"].nextState == "washed"
    ensures Processes["table"].Keys == {"washed"} && Processes["table"]["washed"].nextState == "cut"
    ensures Processes["gas-stove"].Keys == {"cut"} && Processes["gas-stove"]["cut"].nextState == "fried"
    ensures Processes["oven"].Keys == {"washed"} && Processes["oven"]["washed"].nextState == "baked"
  {
  }

  /** No tool accepts a finished dish. */
  lemma FinishedStatesAreFinal(tool: string)
    ensures GetRecipeResult(tool, "fried").None?
    ensures GetRecipeResult(tool, "baked").None?
  {
  }

  /**
   * Starting from a raw potato, exactly one tool sequence ends in chips:
   * sink, table, gas stove, taking ten seconds in all.
   */
  lemma {:induction false} OnlyWayToFried(tools: seq<string>)
    ensures ApplyTools("raw", tools).Some? && ApplyTools("raw", tools).value.0 == "fried"
      <==> tools == ["sink", "table", "gas-stove"]
    ensures tools == ["sink", "table", "gas-stove"] ==> ApplyTools("raw", tools) == Some(("fried", 10000))
  {
    if |tools| > 0 && tools[0] == "sink" {
      FromWashed(tools[1..]);
      if tools == ["sink", "table", "gas-stove"] {
        assert tools[1..] == ["table", "gas-stove"];
      }
    } else if |tools| > 0 {
      assert GetRecipeResult(tools[0], "raw").None?;
    }
  }

  /**
   * Starting from a raw potato, exactly one tool sequence ends in a baked
   * potato: sink, oven, taking eight seconds in all.
   */
  lemma {:induction false} OnlyWayToBaked(tools: seq<string>)
    ensures ApplyTools("raw", tools).Some? && ApplyTools("raw", tools).value.0 == "baked"
      <==> tools == ["sink", "oven"]
    ensures tools == ["sink", "oven"] ==> ApplyTools("raw", tools) == Some(("baked", 8000))
  {
    if |tools| > 0 && tools[0] == "sink" {
      FromWashed(tools[1..]);
      if tools == ["sink", "oven"] {
        assert tools[1..] == ["oven"];
      }
    } else if |tools| > 0 {
      assert GetRecipeResult(tools[0], "raw").None?;
    }
  }

  /** From a washed potato: the table then the stove give chips, the oven alone gives a baked potato. */
  lemma {:induction false} FromWashed(tools: seq<string>)
    ensures ApplyTools("washed", tools).Some? && ApplyTools("washed", tools).value.0 == "fried"
      <==> tools == ["table", "gas-stove"]
    ensures ApplyTools("washed", tools).Some? && ApplyTools("washed", tools).value.0 == "baked"
      <==> tools == ["oven"]
    ensures tools == ["table", "gas-stove"] ==> ApplyTools("washed", tools) == Some(("fried", 7000))
    ensures tools == ["oven"] ==> ApplyTools("washed", tools) == Some(("baked", 5000))
  {
    if |tools| > 0 && tools[0] == "table" {
      FromCut(tools[1..]);
      if tools == ["table", "gas-stove"] {
        assert tools[1..] == ["gas-stove"];
      }
    } else if |tools| > 0 && tools[0] == "oven" {
      FromFinal("baked", tools[1..]);
      if |tools| > 1 {
        assert tools != ["oven"];
      }
    } else if |tools| > 0 {
      assert GetRecipeResult(tools[0], "washed").None?;
    }
  }

  lemma {:induction false} FromCut(tools: seq<string>)
    ensures ApplyTools("cut", tools).Some? && ApplyTools("cut", tools).value.0 == "fried"
      <==> tools == ["gas-stove"]
    ensures ApplyTools("cut", tools).Some? ==> ApplyTools("cut", tools).value.0 != "baked"
    ensures tools == ["gas-stove"] ==> ApplyTools("cut", tools) == Some(("fried", 4000))
  {
    if |tools| > 0 && tools[0] == "gas-stove" {
      FromFinal("fried", tools[1..]);
      if |tools| > 1 {
        assert tools != ["gas-stove"];
      }
    } else if |tools| > 0 {
      assert GetRecipeResult(tools[0], "cut").None?;
    }
  }

  /** A finished dish stays as it is under the empty tool sequence and is refused by every tool. */
  lemma FromFinal(state: string, tools: seq<string>)
    requires state == "fried" || state == "baked"
    ensures ApplyTools(state, tools) == if |tools| == 0 then Some((state, 0)) else None
  {
    if |tools| > 0 {
      FinishedStatesAreFinal(tools[0]);
    }
  }
}
