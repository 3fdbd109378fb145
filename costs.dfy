/** The default scoring functions used when a graph offers no cost or
    heuristic of its own. */
module Costs {
  import opened GraphTypes

  /** The heuristic of a graph without one: every estimate is zero, which
      turns A* into Dijkstra's algorithm. */
  function NullHeuristic(a: Node, b: Node): (h: Cost)
    ensures h == Finite(0.0)
  {
    Finite(0.0)
  }

  /** The cost of a graph without weights: one per present edge, and positive
      infinity for an absent (nil) edge. */
  function UniformCost(e: Option<Edge>): (c: Cost)
    ensures c == Inf <==> e.None?
    ensures e.Some? ==> c == Finite(1.0)
  {
    if e.None? then Inf else Finite(1.0)
  }

  /** The zero heuristic never overestimates: it is at most the true cost of
      any path, which is non-negative or infinite. */
  lemma NullHeuristicAdmissible(a: Node, b: Node, distance: Cost)
    requires distance.Finite? ==> distance.value >= 0.0
    ensures !CostLess(distance, NullHeuristic(a, b))
  {
  }

  /** Under the uniform cost every present edge is cheaper than an absent one,
      and an absent edge is never cheaper than any cost at all. */
  lemma UniformCostAbsentIsWorst(e: Option<Edge>, other: Cost)
    ensures e.Some? ==> CostLess(UniformCost(e), UniformCost(None))
    ensures !CostLess(UniformCost(None), other)
  {
  }
}
