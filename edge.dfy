/** A weighted connection between two graph nodes, given by node indices. */
module Edges {

  datatype Edge = Edge(from: int, to: int, cost: real) {

    /** Whether the edge may be used: both endpoints are real indices and
        the cost is not negative. Reads only the three fields. */
    predicate IsValid()
    {
      from >= 0 && to >= 0 && cost >= 0.0
    }
  }

  /** A negative endpoint invalidates the edge whatever its cost; any edge with
      non-negative endpoints and cost is valid, including a zero-cost
      self-loop. */
  lemma ValidityCases(e: Edge)
    ensures e.from < 0 || e.to < 0 ==> !e.IsValid()
    ensures e.IsValid() <==> e.from >= 0 && e.to >= 0 && e.cost >= 0.0
    ensures e.from >= 0 ==> Edge(e.from, e.from, 0.0).IsValid()
  {
  }
}
