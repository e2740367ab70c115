/** The context tree as seen by the queries: a finite child-of relation. */
module TreeNodes {

  /** `(parent, child)` pairs. Finite by construction; cycles are allowed. */
  type ChildRelation<N(==)> = set<(N, N)>

  /** The children query: every child of every node of `s`. */
  function Children<N(==)>(g: ChildRelation<N>, s: set<N>): set<N>
  {
    set e | e in g && e.0 in s :: e.1
  }

  /** Every node that is a child of something: the nodes a query can ever reach. */
  function Targets<N(==)>(g: ChildRelation<N>): set<N>
  {
    set e | e in g :: e.1
  }
}
