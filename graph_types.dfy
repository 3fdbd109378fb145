/**
 * The values the search layer passes around: scores, nodes, the scored
 * wrapper the priority queue stores, and edges.
 */
module GraphTypes {

  /** Absence of a value (Go's nil for an interface or a function). */
  datatype Option<+T> = None | Some(value: T)

  /**
   * A float64 score or cost. `Inf` is math.Inf(1), which the layer uses for
   * an absent edge; negative infinity and NaN never arise here.
   */
  datatype Cost = Finite(value: real) | Inf

  /** Go's `<` on two float64 values under the encoding above. */
  predicate CostLess(a: Cost, b: Cost) {
    match a
    case Inf => false
    case Finite(x) => b.Inf? || x < b.value
  }

  /**
   * A graph node (gr.Node). `Basic` is a node of the caller's graph;
   * `Wrapped` is an internalNode that leaked where a plain node was expected.
   */
  datatype Node = Basic(id: int) | Wrapped(entry: InternalNode)

  /** internalNode: a node with its g-score and f-score (the embedded node
      supplies its ID). */
  datatype InternalNode = InternalNode(node: Node, gscore: Cost, fscore: Cost)

  /** Node.ID(); an internalNode answers with the ID of the node it embeds. */
  function NodeId(n: Node): int {
    match n
    case Basic(id) => id
    case Wrapped(e) => NodeId(e.node)
  }

  function EntryId(e: InternalNode): int {
    NodeId(e.node)
  }

  /** The `n.(internalNode)` assertion followed by `n.Node`: strips one
      wrapper, never changing the identity of the node. */
  function Unwrap(n: Node): (r: Node)
    ensures NodeId(r) == NodeId(n)
    ensures n.Basic? ==> r == n
    ensures n.Wrapped? ==> r == n.entry.node
  {
    match n
    case Basic(_) => n
    case Wrapped(e) => e.node
  }

  /** gr.Edge: a head and a tail. */
  datatype Edge = Edge(head: Node, tail: Node)

  /** concrete.WeightedEdge: an edge with a float64 weight. */
  datatype WeightedEdge = WeightedEdge(edge: Edge, cost: Cost)

  /** `before` is irreflexive and transitive, and being unordered by it is
      transitive too: what sort.Sort needs of a Less. */
  ghost predicate StrictWeakOrder<T(!new)>(before: (T, T) -> bool) {
    && (forall x :: !before(x, x))
    && (forall x, y, z :: before(x, y) && before(y, z) ==> before(x, z))
    && (forall x, y, z ::
          !before(x, y) && !before(y, x) && !before(y, z) && !before(z, y) ==>
            !before(x, z) && !before(z, x))
  }

  /** float64 `<` over non-NaN values is a strict total order. */
  lemma CostLessIsStrictTotal()
    ensures StrictWeakOrder(CostLess)
    ensures forall a, b :: CostLess(a, b) || CostLess(b, a) || a == b
  {
  }
}
