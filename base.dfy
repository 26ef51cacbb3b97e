/** Values shared by the store and its modules: the three kinds of node,
    edges as ordered node tuples, and the failure wrappers used wherever the
    Java code returns null or throws. */
module Base {

  datatype Option<T> = None | Some(value: T)

  /** The unchecked exceptions the modelled code can raise. */
  datatype Error =
    | NullPointer          // a missing module or a null collection is dereferenced
    | ClassCast            // a query argument in node position is not a node
    | IndexOutOfBounds     // an array or string index outside its bounds
    | NumberFormat         // all-digit text that does not fit in a Java long

  datatype Result<T> = Ok(value: T) | Err(error: Error)

  /** A node: a concept node (DAGNode) with its id and name, a string literal
      (StringNode) holding its unquoted value, or a primitive (PrimitiveNode)
      holding the canonical text of its parsed value. */
  datatype Node =
    | Concept(id: nat, name: string)
    | Str(value: string)
    | Prim(literal: string)

  /** An edge (DAGEdge): its id and its ordered nodes. */
  datatype Edge = Edge(id: nat, nodes: seq<Node>)

  /** Node n stands at 1-based position p of e. */
  predicate At(e: Edge, n: Node, p: int)
  {
    1 <= p <= |e.nodes| && e.nodes[p - 1] == n
  }

  /** e contains at least one concept node, so the related-edge index knows it. */
  predicate HasConcept(e: Edge)
  {
    exists i :: 0 <= i < |e.nodes| && e.nodes[i].Concept?
  }

  /** Largest value of a Java long. */
  const LONG_MAX: int := 0x7FFF_FFFF_FFFF_FFFF
}
