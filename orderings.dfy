/**
 * The tie-break orderings: edgeSorter orders weighted edges by cost and
 * denseNodeSorter orders nodes by ID. Both are Go slices, modelled as arrays
 * whose elements Swap exchanges in place.
 */
module Orderings {
  import opened GraphTypes

  /** The element order edgeSorter.Less compares by. */
  predicate EdgeBefore(a: WeightedEdge, b: WeightedEdge) {
    CostLess(a.cost, b.cost)
  }

  /** The element order denseNodeSorter.Less compares by. */
  predicate NodeBefore(a: Node, b: Node) {
    NodeId(a) < NodeId(b)
  }

  /** edgeSorter.Less: no slot comes before itself, and two slots are never
      each before the other. */
  function EdgeLess(el: array<WeightedEdge>, i: int, j: int): (r: bool)
    reads el
    requires 0 <= i < el.Length && 0 <= j < el.Length
    ensures i == j ==> !r
    ensures r ==> !CostLess(el[j].cost, el[i].cost)
  {
    EdgeBefore(el[i], el[j])
  }

  /** edgeSorter.Swap */
  method SwapEdges(el: array<WeightedEdge>, i: int, j: int)
    requires 0 <= i < el.Length && 0 <= j < el.Length
    modifies el
    ensures el[..] == old(el[..])[i := old(el[j])][j := old(el[i])]
    ensures multiset(el[..]) == multiset(old(el[..]))
  {
    el[i], el[j] := el[j], el[i];
  }

  /** denseNodeSorter.Less: no slot comes before itself, and two slots are
      never each before the other. */
  function NodeLess(dns: array<Node>, i: int, j: int): (r: bool)
    reads dns
    requires 0 <= i < dns.Length && 0 <= j < dns.Length
    ensures i == j ==> !r
    ensures r ==> NodeId(dns[j]) > NodeId(dns[i])
  {
    NodeBefore(dns[i], dns[j])
  }

  /** denseNodeSorter.Swap */
  method SwapNodes(dns: array<Node>, i: int, j: int)
    requires 0 <= i < dns.Length && 0 <= j < dns.Length
    modifies dns
    ensures dns[..] == old(dns[..])[i := old(dns[j])][j := old(dns[i])]
    ensures multiset(dns[..]) == multiset(old(dns[..]))
  {
    dns[i], dns[j] := dns[j], dns[i];
  }

  /** Ordering edges by cost is a strict weak order: edges of equal cost are
      unordered among themselves and ordered alike against every other. */
  lemma EdgeOrderIsStrictWeak()
    ensures StrictWeakOrder(EdgeBefore)
  {
    CostLessIsStrictTotal();
  }

  /** Ordering nodes by ID is a strict weak order; it is total on IDs. */
  lemma NodeOrderIsStrictWeak()
    ensures StrictWeakOrder(NodeBefore)
    ensures forall a, b :: NodeBefore(a, b) || NodeBefore(b, a) || NodeId(a) == NodeId(b)
  {
  }
}
