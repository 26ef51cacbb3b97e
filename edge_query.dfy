/** The meaning of a related-edge query, as functions of the index value.

    The index maps each concept node to a map from 1-based position to the set
    of edges holding that node at that position. A query is a list of
    arguments: a node, optionally followed by an integer selector (positive:
    at that position; negative: at that position, subtracted; none: anywhere).
    Evaluation locates one collection per concept-node constraint, sorts the
    collections additive first and then by ascending size, folds them with
    intersection and difference, and finally filters on the non-concept
    constraints. */
module EdgeQuery {
  import opened Base

  type IndexMap = map<Node, map<int, set<Edge>>>

  /** One element of the untyped argument array of execute. */
  datatype Arg = NodeArg(node: Node) | PosArg(pos: int)

  /** A node with the selector that followed it, if any. */
  datatype Constraint = Constraint(node: Node, sel: Option<int>)

  /** EdgeCol: a located collection and whether it is additive. */
  datatype EdgeCol = EdgeCol(additive: bool, edges: set<Edge>)

  // ---------------------------------------------------------------------
  // The index and what it stands for

  /** The collection for node n at position p, empty when there is none. */
  function Bucket(idx: IndexMap, n: Node, p: int): set<Edge>
  {
    if n in idx && p in idx[n] then idx[n][p] else {}
  }

  /** idx indexes exactly the edges of contents: an edge is in bucket (n, p)
      when, and only when, it is indexed and its p-th node is the concept n.
      Only concept nodes have buckets, and only edges with a concept node are
      indexed. */
  ghost predicate IndexOf(idx: IndexMap, contents: set<Edge>)
  {
    && (forall n :: n in idx ==> n.Concept?)
    && (forall n, p, e :: e in Bucket(idx, n, p) ==> e in contents && n.Concept? && At(e, n, p))
    && (forall e, i :: e in contents && 0 <= i < |e.nodes| && e.nodes[i].Concept? ==>
          e in Bucket(idx, e.nodes[i], i + 1))
    && (forall e :: e in contents ==> HasConcept(e))
  }

  /** The index with bucket (n, k) replaced by s, creating n's map when it
      has none (MultiMap.put after getEdges with creation). */
  function Put(idx: IndexMap, n: Node, k: int, s: set<Edge>): (r: IndexMap)
    ensures forall m :: m in r <==> m in idx || m == n
    ensures forall m, p :: Bucket(r, m, p) == if m == n && p == k then s else Bucket(idx, m, p)
  {
    idx[n := (if n in idx then idx[n] else map[])[k := s]]
  }

  /** The union of all of a node's buckets (the multimap's values()). */
  function AllEdges(m: map<int, set<Edge>>): set<Edge>
  {
    set p, e | p in m && e in m[p] :: e
  }

  /** getEdges without creation: the bucket for key, the union of all buckets
      when there is no key, and an empty collection for an unknown node or
      position. */
  function Lookup(idx: IndexMap, n: Node, key: Option<int>): set<Edge>
  {
    if n !in idx then {}
    else match key
      case None => AllEdges(idx[n])
      case Some(k) => if k in idx[n] then idx[n][k] else {}
  }

  // ---------------------------------------------------------------------
  // Reading the argument array

  /** Read the arguments pairwise: each must be a node, and an integer after it
      is its selector. An integer where a node is expected fails the cast. */
  function Parse(args: seq<Arg>): Result<seq<Constraint>>
    decreases |args|
  {
    if args == [] then Ok([])
    else if args[0].PosArg? then Err(ClassCast)
    else
      var hasSel := |args| > 1 && args[1].PosArg?;
      var c := Constraint(args[0].node, if hasSel then Some(args[1].pos) else None);
      match Parse(if hasSel then args[2..] else args[1..])
      case Err(x) => Err(x)
      case Ok(cs) => Ok([c] + cs)
  }

  /** Prefix already-read constraints to the result of reading the rest. */
  function Prepend(pre: seq<Constraint>, r: Result<seq<Constraint>>): Result<seq<Constraint>>
  {
    match r
    case Err(x) => Err(x)
    case Ok(cs) => Ok(pre + cs)
  }

  /** A missing or non-negative selector is additive; a negative one subtracts. */
  predicate Additive(sel: Option<int>)
  {
    sel.None? || sel.value >= 0
  }

  /** The bucket key of a selector: its magnitude. */
  function Key(sel: Option<int>): Option<int>
  {
    match sel
    case None => None
    case Some(p) => Some(if p < 0 then -p else p)
  }

  /** The declarative meaning of one constraint on one edge. */
  predicate Sat(e: Edge, c: Constraint)
  {
    match Key(c.sel)
    case None => c.node in e.nodes
    case Some(k) => At(e, c.node, k)
  }

  // ---------------------------------------------------------------------
  // locateEdgeCollections

  /** The collection located for one constraint. */
  function ColOf(idx: IndexMap, c: Constraint): EdgeCol
  {
    EdgeCol(Additive(c.sel), Lookup(idx, c.node, Key(c.sel)))
  }

  /** One collection per concept-node constraint, in argument order;
      non-concept constraints are skipped. */
  function Locate(idx: IndexMap, cs: seq<Constraint>): seq<EdgeCol>
    decreases |cs|
  {
    if cs == [] then []
    else
      var last := cs[|cs| - 1];
      Locate(idx, cs[..|cs| - 1]) + (if last.node.Concept? then [ColOf(idx, last)] else [])
  }

  // ---------------------------------------------------------------------
  // SmallestFirstComparator and the stable sort

  /** SmallestFirstComparator.compare. */
  function Compare(a: EdgeCol, b: EdgeCol): (r: int)
    ensures r <= 0 <==> Before(a, b)
    ensures r >= 0 <==> Before(b, a)
  {
    if a.additive && !b.additive then -1
    else if !a.additive && b.additive then 1
    else if |a.edges| < |b.edges| then -1
    else if |a.edges| == |b.edges| then 0
    else 1
  }

  /** a may precede b: additive before subtractive, then smaller first. */
  predicate Before(a: EdgeCol, b: EdgeCol)
  {
    (a.additive && !b.additive) || (a.additive == b.additive && |a.edges| <= |b.edges|)
  }

  predicate Ordered(s: seq<EdgeCol>)
  {
    forall i, j :: 0 <= i < j < |s| ==> Before(s[i], s[j])
  }

  /** Insert x ahead of the first element it does not follow. */
  function Insert(x: EdgeCol, s: seq<EdgeCol>): seq<EdgeCol>
  {
    if s == [] then [x]
    else if Compare(x, s[0]) <= 0 then [x] + s
    else [s[0]] + Insert(x, s[1..])
  }

  /** Collections.sort: a stable sort by the comparator. A stable sort's
      output is determined by the comparator alone, so insertion sort stands
      for the library's merge sort. */
  function Sort(s: seq<EdgeCol>): seq<EdgeCol>
  {
    if s == [] then [] else Insert(s[0], Sort(s[1..]))
  }

  // ---------------------------------------------------------------------
  // The fold

  /** Fold the remaining collections into the running result. */
  function FoldFrom(acc: set<Edge>, rest: seq<EdgeCol>): set<Edge>
    decreases |rest|
  {
    if rest == [] then acc
    else FoldFrom(if rest[0].additive then acc * rest[0].edges else acc - rest[0].edges, rest[1..])
  }

  /** The first collection seeds the result; with none, the result is null. */
  function Fold(cols: seq<EdgeCol>): Option<set<Edge>>
  {
    if cols == [] then None else Some(FoldFrom(cols[0].edges, cols[1..]))
  }

  // ---------------------------------------------------------------------
  // filterNonDAGs

  /** Outcome of checking one edge against the non-concept constraints. */
  datatype Check = Pass | Fail | Throw

  /** A non-concept constraint: the node and a 0-based array index, -1 for
      "anywhere". The index is the selector minus one, negative or not. */
  datatype NonConcept = NonConcept(node: Node, index: int)

  function IndexOfSel(sel: Option<int>): int
  {
    match sel
    case None => -1
    case Some(p) => p - 1
  }

  /** The non-concept constraints, in argument order. */
  function NonConcepts(cs: seq<Constraint>): seq<NonConcept>
    decreases |cs|
  {
    if cs == [] then []
    else
      var last := cs[|cs| - 1];
      NonConcepts(cs[..|cs| - 1])
        + (if !last.node.Concept? then [NonConcept(last.node, IndexOfSel(last.sel))] else [])
  }

  /** Check e against ps in order, stopping at the first mismatch. An index
      other than -1 outside the edge's node array throws. */
  function CheckEdge(e: Edge, ps: seq<NonConcept>): Check
    decreases |ps|
  {
    if ps == [] then Pass
    else if ps[0].index == -1 then
      (if ps[0].node in e.nodes then CheckEdge(e, ps[1..]) else Fail)
    else if ps[0].index < 0 || ps[0].index >= |e.nodes| then Throw
    else if e.nodes[ps[0].index] == ps[0].node then CheckEdge(e, ps[1..])
    else Fail
  }

  /** One non-concept constraint holds of e. */
  predicate Matches(e: Edge, p: NonConcept)
  {
    if p.index == -1 then p.node in e.nodes
    else 0 <= p.index < |e.nodes| && e.nodes[p.index] == p.node
  }

  /** With no non-concept constraint, or no candidate set, the candidates pass
      through unchanged (null stays null). Otherwise keep the edges that pass
      every check; one edge whose check throws makes the whole call throw. */
  function Filter(cand: Option<set<Edge>>, cs: seq<Constraint>): Result<Option<set<Edge>>>
  {
    var ps := NonConcepts(cs);
    if ps == [] || cand.None? then Ok(cand)
    else if exists e :: e in cand.value && CheckEdge(e, ps) == Throw then Err(IndexOutOfBounds)
    else Ok(Some(set e | e in cand.value && CheckEdge(e, ps) == Pass))
  }

  // ---------------------------------------------------------------------
  // execute and findEdgeByNodes

  /** execute(args). */
  function Execute(idx: IndexMap, args: seq<Arg>): Result<Option<set<Edge>>>
  {
    match Parse(args)
    case Err(x) => Err(x)
    case Ok(cs) => Filter(Fold(Sort(Locate(idx, cs))), cs)
  }

  /** asIndexed(nodes) from offset k: each node followed by its 1-based
      position. */
  function IndexedFrom(nodes: seq<Node>, k: nat): seq<Arg>
    decreases |nodes|
  {
    if nodes == [] then []
    else [NodeArg(nodes[0]), PosArg(k + 1)] + IndexedFrom(nodes[1..], k + 1)
  }

  function Indexed(nodes: seq<Node>): seq<Arg>
  {
    IndexedFrom(nodes, 0)
  }

  /** The constraints asIndexed(nodes) reads as: node i at position i + 1. */
  function PositionalFrom(nodes: seq<Node>, k: nat): seq<Constraint>
    decreases |nodes|
  {
    if nodes == [] then []
    else [Constraint(nodes[0], Some(k + 1))] + PositionalFrom(nodes[1..], k + 1)
  }

  /** findEdgeByNodes as written: execute(asIndexed(nodes)). */
  function FindByNodesAsWritten(idx: IndexMap, nodes: seq<Node>): Result<Option<set<Edge>>>
  {
    Execute(idx, Indexed(nodes))
  }

  /** findEdgeByNodes as intended: the positional candidates whose node
      sequence is exactly nodes (arity checked). */
  function FindByNodes(idx: IndexMap, nodes: seq<Node>): Option<set<Edge>>
  {
    match Fold(Sort(Locate(idx, PositionalFrom(nodes, 0))))
    case None => None
    case Some(s) => Some(set e | e in s && e.nodes == nodes)
  }

  /** The declarative answer of the concept-node part of a query: indexed
      edges satisfying every additive and no subtractive concept constraint. */
  ghost function Answer(contents: set<Edge>, cs: seq<Constraint>): set<Edge>
  {
    set e | e in contents
      && (forall c :: c in cs && c.node.Concept? && Additive(c.sel) ==> Sat(e, c))
      && (forall c :: c in cs && c.node.Concept? && !Additive(c.sel) ==> !Sat(e, c))
  }

  ghost predicate HasAdditiveConcept(cs: seq<Constraint>)
  {
    exists c :: c in cs && c.node.Concept? && Additive(c.sel)
  }
}
