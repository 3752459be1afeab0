/**
 * The loaded configuration the engine consumes: graph nodes in declaration
 * order, edges, recipes and the simulation constants. It is an opaque,
 * already-parsed value here; YAML loading is not part of this model.
 */
module KitchenConfig {
  import opened Wrappers
  import Navigation

  /** One entry of `graph.nodes`: id, display name, type label and the optional `item_id`. */
  datatype NodeSpec = NodeSpec(id: int, name: string, kind: string, itemId: Option<int>)

  /** One entry of `recipes`: an `input` item at the station called `station` becomes `output` after `time` ticks. */
  datatype Recipe = Recipe(input: int, station: string, output: int, time: int)

  /** The `simulation` section (the float reward constants are not modelled). */
  datatype Simulation = Simulation(maxInventory: int, maxOrders: int, orderTtl: int, maxSteps: int)

  datatype Config = Config(
    nodes: seq<NodeSpec>,
    edges: seq<Navigation.Edge>,
    recipes: seq<Recipe>,
    sim: Simulation)

  function NodeIds(nodes: seq<NodeSpec>): (ids: seq<int>)
    ensures |ids| == |nodes|
    ensures forall i :: 0 <= i < |nodes| ==> ids[i] == nodes[i].id
  {
    if |nodes| == 0 then [] else NodeIds(nodes[..|nodes| - 1]) + [nodes[|nodes| - 1].id]
  }

  /** `len(config['graph']['nodes'])`: move actions are 0 .. NumNodes - 1 and NumNodes is interact. */
  function NumNodes(c: Config): nat {
    |c.nodes|
  }

  /**
   * The node table is a dictionary, so its ids are distinct; and action ids
   * double as node ids, so the ids are exactly 0 .. N - 1 and every edge
   * joins two of them.
   */
  predicate IndexedNodes(c: Config) {
    && (forall i :: 0 <= i < |c.nodes| ==> c.nodes[i].id == i)
    && (forall i :: 0 <= i < |c.edges| ==> 0 <= c.edges[i].u < |c.nodes| && 0 <= c.edges[i].v < |c.nodes|)
  }
}
