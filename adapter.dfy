/**
 * Capability dispatch: inspect once which optional abilities a graph has and
 * fix the accessor, adjacency, cost and heuristic functions a search uses.
 */
module Adapter {
  import opened GraphTypes
  import Costs

  /** The directed capability (gr.DirectedGraph beyond gr.Graph). */
  datatype Directed = Directed(
    successors: Node -> seq<Node>,
    predecessors: Node -> seq<Node>,
    edgeTo: (Node, Node) -> Option<Edge>)

  /**
   * A graph as the set of capabilities it implements: every graph lists
   * neighbours and answers EdgeBetween; being directed, being a Coster and
   * being a HeuristicCoster are optional.
   */
  datatype Graph = Graph(
    neighbors: Node -> seq<Node>,
    edgeBetween: (Node, Node) -> Option<Edge>,
    directed: Option<Directed>,
    coster: Option<Option<Edge> -> Cost>,
    heuristicCoster: Option<(Node, Node) -> Cost>)

  /** searchFuncs: the fixed bundle a search run reads from. */
  datatype SearchFuncs = SearchFuncs(
    successors: Node -> seq<Node>,
    predecessors: Node -> seq<Node>,
    neighbors: Node -> seq<Node>,
    isSuccessor: (Node, Node) -> bool,
    isPredecessor: (Node, Node) -> bool,
    isNeighbor: (Node, Node) -> bool,
    cost: Option<Edge> -> Cost,
    heuristicCost: (Node, Node) -> Cost)

  /** genIsSuccessor: is there an edge from `node` to `succ`? */
  function GenIsSuccessor(d: Directed): (r: (Node, Node) -> bool)
    ensures forall node, succ :: r(node, succ) <==> d.edgeTo(node, succ).Some?
  {
    (node, succ) => d.edgeTo(node, succ).Some?
  }

  /** genIsPredecessor: is there an edge from `succ` to `node`? */
  function GenIsPredecessor(d: Directed): (r: (Node, Node) -> bool)
    ensures forall node, succ :: r(node, succ) <==> d.edgeTo(succ, node).Some?
  {
    (node, succ) => d.edgeTo(succ, node).Some?
  }

  /** genIsNeighbor: asks EdgeBetween with the arguments swapped. */
  function GenIsNeighbor(g: Graph): (r: (Node, Node) -> bool)
    ensures forall node, succ :: r(node, succ) <==> g.edgeBetween(succ, node).Some?
  {
    (node, succ) => g.edgeBetween(succ, node).Some?
  }

  /** setupFuncs; `cost` and `heuristicCost` are the caller's overrides, None
      standing for nil. */
  function SetupFuncs(
    g: Graph,
    cost: Option<Option<Edge> -> Cost>,
    heuristicCost: Option<(Node, Node) -> Cost>): (sf: SearchFuncs)
    // a directed graph keeps its own directed accessors
    ensures g.directed.Some? ==>
      var d := g.directed.value;
      && (forall n :: sf.successors(n) == d.successors(n))
      && (forall n :: sf.predecessors(n) == d.predecessors(n))
      && (forall n :: sf.neighbors(n) == g.neighbors(n))
      && (forall a, b :: sf.isSuccessor(a, b) <==> d.edgeTo(a, b).Some?)
      && (forall a, b :: sf.isPredecessor(a, b) <==> d.edgeTo(b, a).Some?)
      && (forall a, b :: sf.isNeighbor(a, b) <==> g.edgeBetween(b, a).Some?)
    // any other graph has all three roles collapse onto Neighbors/EdgeBetween
    ensures g.directed.None? ==>
      && (forall n :: sf.successors(n) == g.neighbors(n))
      && (forall n :: sf.predecessors(n) == g.neighbors(n))
      && (forall n :: sf.neighbors(n) == g.neighbors(n))
      && (forall a, b :: sf.isSuccessor(a, b) <==> g.edgeBetween(b, a).Some?)
      && (forall a, b :: sf.isPredecessor(a, b) <==> g.edgeBetween(b, a).Some?)
      && (forall a, b :: sf.isNeighbor(a, b) <==> g.edgeBetween(b, a).Some?)
    // heuristic: override, else the graph's own, else zero
    ensures heuristicCost.Some? ==>
      forall a, b :: sf.heuristicCost(a, b) == heuristicCost.value(a, b)
    ensures heuristicCost.None? && g.heuristicCoster.Some? ==>
      forall a, b :: sf.heuristicCost(a, b) == g.heuristicCoster.value(a, b)
    ensures heuristicCost.None? && g.heuristicCoster.None? ==>
      forall a, b :: sf.heuristicCost(a, b) == Finite(0.0)
    // cost: override, else the graph's own, else one per edge and +Inf for none
    ensures cost.Some? ==> forall e :: sf.cost(e) == cost.value(e)
    ensures cost.None? && g.coster.Some? ==> forall e :: sf.cost(e) == g.coster.value(e)
    ensures cost.None? && g.coster.None? ==>
      && sf.cost(None) == Inf
      && forall e: Edge :: sf.cost(Some(e)) == Finite(1.0)
  {
    var accessors :=
      match g.directed
      case Some(d) =>
        (d.successors, d.predecessors, g.neighbors,
         GenIsSuccessor(d), GenIsPredecessor(d), GenIsNeighbor(g))
      case None =>
        (g.neighbors, g.neighbors, g.neighbors,
         GenIsNeighbor(g), GenIsNeighbor(g), GenIsNeighbor(g));
    var heuristic :=
      if heuristicCost.Some? then heuristicCost.value
      else if g.heuristicCoster.Some? then g.heuristicCoster.value
      else Costs.NullHeuristic;
    var edgeCost :=
      if cost.Some? then cost.value
      else if g.coster.Some? then g.coster.value
      else Costs.UniformCost;
    SearchFuncs(accessors.0, accessors.1, accessors.2,
                accessors.3, accessors.4, accessors.5,
                edgeCost, heuristic)
  }

  /** In a directed graph, b is a successor of a exactly when a is a
      predecessor of b; in any other graph the same holds with both tests
      being the one EdgeBetween test. */
  lemma SuccessorIsConversePredecessor(
    g: Graph,
    cost: Option<Option<Edge> -> Cost>,
    heuristicCost: Option<(Node, Node) -> Cost>,
    a: Node, b: Node)
    ensures g.directed.Some? ==>
      (SetupFuncs(g, cost, heuristicCost).isSuccessor(a, b) <==>
       SetupFuncs(g, cost, heuristicCost).isPredecessor(b, a))
    ensures g.directed.None? ==>
      (SetupFuncs(g, cost, heuristicCost).isSuccessor(a, b) <==>
       SetupFuncs(g, cost, heuristicCost).isPredecessor(a, b))
  {
  }
}
