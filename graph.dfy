/** DirectedAcyclicGraph: the node and edge tables, keyed by id, the id
    counters, the module registry, and the hook calls it makes on every
    change. The related-edge module is the object `related`; it is kept in
    step with the edge table through its hooks. */
module Graph {
  import opened Base
  import opened StringNodes
  import opened EdgeQuery
  import opened EdgeQueryFacts
  import opened RelatedEdges

  // ---------------------------------------------------------------------
  // Modules

  const RELATED: string := "graph.module.RelatedEdgeModule"
  const ALIAS: string := "graph.module.NodeAliasModule"
  const DAG_MODULE: string := "graph.module.DAGModule"

  /** A registered module: the related-edge module, the node alias module,
      or another module known by its class name and its supertypes' names. */
  datatype ModuleRef =
    | RelatedEdges
    | NodeAlias
    | Other(className: string, supers: set<string>)

  function ClassName(m: ModuleRef): string
  {
    match m
    case RelatedEdges => RELATED
    case NodeAlias => ALIAS
    case Other(c, _) => c
  }

  function Supers(m: ModuleRef): set<string>
  {
    match m
    case Other(_, s) => s
    case _ => {DAG_MODULE}
  }

  /** Class.isAssignableFrom: the requested class is the module's class or
      one of its supertypes. */
  predicate Assignable(req: string, m: ModuleRef)
  {
    req == ClassName(m) || req in Supers(m)
  }

  /** Other modules are neither of the two modules the store calls by name,
      nor subclasses of them. */
  predicate WellFormed(m: ModuleRef)
  {
    m.Other? ==> m.className != RELATED && m.className != ALIAS && RELATED !in m.supers && ALIAS !in m.supers
  }

  /** Only the related-edge module answers a request for its class. */
  lemma AssignableToRelated(m: ModuleRef)
    requires WellFormed(m) && Assignable(RELATED, m)
    ensures m == RelatedEdges
  {
  }

  // ---------------------------------------------------------------------
  // Hooks

  /** An object that carries properties. */
  datatype DagObject = NodeObject(node: Node) | EdgeObject(edge: Edge)

  /** The hook calls the store makes on its modules. */
  datatype Event =
    | NodeAdded(node: Node)
    | NodeRemoved(node: Node)
    | EdgeAdded(edge: Edge)
    | EdgeRemoved(edge: Edge)
    | PropertyAdded(obj: DagObject, key: string, value: string)
    | PropertyRemoved(obj: DagObject, key: string)
    | Cleared

  /** One round of hook calls: ev's hook ran on the module under each of
      keys, once per key. */
  datatype Hook = Round(keys: set<string>, ev: Event)

  /** What an event does to the related-edge module's edge set. */
  function Effect(ev: Event, c: set<Edge>): (r: set<Edge>)
    ensures ev.EdgeRemoved? ==> ev.edge !in r
    ensures ev.EdgeAdded? && HasConcept(ev.edge) ==> ev.edge in r
    ensures ev.Cleared? ==> r == {}
    ensures !(ev.EdgeAdded? || ev.EdgeRemoved? || ev.Cleared?) ==> r == c
  {
    match ev
    case EdgeAdded(e) => if HasConcept(e) then c + {e} else c
    case EdgeRemoved(e) => c - {e}
    case Cleared => {}
    case _ => c
  }

  /** A hook running twice through two keys has the effect of running once. */
  lemma EffectIdempotent(ev: Event, c: set<Edge>)
    ensures Effect(ev, Effect(ev, c)) == Effect(ev, c)
  {
  }

  // ---------------------------------------------------------------------
  // Reading node text

  /** String.matches("\\d+"). */
  predicate IsDigits(s: string)
  {
    |s| > 0 && forall i :: 0 <= i < |s| ==> '0' <= s[i] <= '9'
  }

  /** The number a digit string denotes. */
  function DigitsValue(s: string): nat
    requires forall i :: 0 <= i < |s| ==> '0' <= s[i] <= '9'
    decreases |s|
  {
    if s == [] then 0
    else DigitsValue(s[..|s| - 1]) * 10 + (s[|s| - 1] as int - '0' as int)
  }

  /** A number written in decimal. */
  function DecimalText(n: nat): (r: string)
    ensures forall i :: 0 <= i < |r| ==> '0' <= r[i] <= '9'
    decreases n
  {
    (if n < 10 then [] else DecimalText(n / 10)) + ['0' + (n % 10) as char]
  }

  /** Decimal text reads back as the number it was written from. */
  lemma {:induction false} DecimalRoundTrip(n: nat)
    ensures IsDigits(DecimalText(n)) && DigitsValue(DecimalText(n)) == n
    decreases n
  {
    var s := DecimalText(n);
    assert s[..|s| - 1] == if n < 10 then [] else DecimalText(n / 10);
    if n >= 10 {
      DecimalRoundTrip(n / 10);
    }
  }

  /** Which case of findOrCreateNode applies to the text, in the order the
      cases are tried. */
  datatype NodeText = NullText | Anonymous | Literal | ById | Primitive | ByName

  function Classify(text: Option<string>, createNew: bool, dagNodeOnly: bool): (k: NodeText)
    ensures k == NullText <==> text.None?
    ensures k == ById ==> IsDigits(text.value)
    ensures text.Some? && IsDigits(text.value) ==> k == ById
    ensures k == ByName ==> text.Some? && !IsDigits(text.value) && !(createNew && text.value == [])
  {
    if text.None? then NullText
    else
      var s := text.value;
      if createNew && s == [] then Anonymous
      else if !dagNodeOnly && |s| > 0 && s[0] == '"' then Literal
      else if IsDigits(s) then ById
      else if !dagNodeOnly && |s| > 0 && s[0] == '\'' then Primitive
      else ByName
  }

  /** What findOrCreateEdge returns: an edge, or the error edge for a
      concept node missing from the store. */
  datatype EdgeOutcome = StoredEdge(edge: Edge) | NonExistentNode

  /** The existence check findOrCreateEdge makes, left to right: each
      concept node is looked up by its identifier (its id in decimal); an id
      too large for a long throws, a missing one stops the check. */
  function ConceptsCheck(nodes: map<nat, string>, ns: seq<Node>): Result<bool>
  {
    if ns == [] then Ok(true)
    else if ns[0].Concept? && ns[0].id > LONG_MAX then Err(NumberFormat)
    else if ns[0].Concept? && ns[0].id !in nodes then Ok(false)
    else ConceptsCheck(nodes, ns[1..])
  }

  /** The check passes exactly when every concept node is stored, and fails
      only for a concept node that is not. */
  lemma {:induction false} ConceptsCheckMeaning(nodes: map<nat, string>, ns: seq<Node>)
    ensures ConceptsCheck(nodes, ns) == Ok(true) <==>
      forall i :: 0 <= i < |ns| && ns[i].Concept? ==> ns[i].id in nodes && ns[i].id <= LONG_MAX
    ensures ConceptsCheck(nodes, ns) == Ok(false) ==>
      exists i :: 0 <= i < |ns| && ns[i].Concept? && ns[i].id !in nodes
    ensures ConceptsCheck(nodes, ns).Err? ==>
      ConceptsCheck(nodes, ns).error == NumberFormat
      && exists i :: 0 <= i < |ns| && ns[i].Concept? && ns[i].id > LONG_MAX
    decreases |ns|
  {
    if ns != [] {
      ConceptsCheckMeaning(nodes, ns[1..]);
      assert forall i :: 1 <= i < |ns| ==> ns[i] == ns[1..][i - 1];
      if ConceptsCheck(nodes, ns) == Ok(false) && !(ns[0].Concept? && ns[0].id !in nodes) {
        var i :| 0 <= i < |ns[1..]| && ns[1..][i].Concept? && ns[1..][i].id !in nodes;
        assert ns[i + 1] == ns[1..][i];
      }
      if ConceptsCheck(nodes, ns).Err? && !(ns[0].Concept? && ns[0].id > LONG_MAX) {
        var i :| 0 <= i < |ns[1..]| && ns[1..][i].Concept? && ns[1..][i].id > LONG_MAX;
        assert ns[i + 1] == ns[1..][i];
      }
    }
  }

  /** A value stored under a fresh key joins the map's values. */
  lemma ValuesAddFresh<K, V>(m: map<K, V>, k: K, v: V)
    requires k !in m
    ensures m[k := v].Values == m.Values + {v}
  {
    forall x | x in m.Values ensures x in m[k := v].Values {
      var j :| j in m && m[j] == x;
      assert m[k := v][j] == x;
    }
    forall x | x in m[k := v].Values ensures x in m.Values + {v} {
      var j :| j in m[k := v] && m[k := v][j] == x;
      if j != k {
        assert m[j] == x;
      }
    }
    assert m[k := v][k] == v;
  }

  /** Removing the only key that holds a value removes that value. */
  lemma ValuesRemoveUnique<K, V>(m: map<K, V>, k: K)
    requires k in m && forall j :: j in m && m[j] == m[k] ==> j == k
    ensures (m - {k}).Values == m.Values - {m[k]}
  {
    forall x | x in m.Values && x != m[k] ensures x in (m - {k}).Values {
      var j :| j in m && m[j] == x;
      assert (m - {k})[j] == x;
    }
  }

  /** The edge table without the edges of s. */
  function Without(es: map<nat, Edge>, s: set<Edge>): (r: map<nat, Edge>)
    ensures forall id :: id in r <==> id in es && es[id] !in s
    ensures forall id :: id in r ==> r[id] == es[id]
  {
    map id | id in es && es[id] !in s :: es[id]
  }

  /** Dropping one edge of s from the table and then the rest of s drops
      all of s, since every edge is stored under its own id. */
  lemma {:induction false} WithoutStep(es: map<nat, Edge>, s: set<Edge>, e: Edge)
    requires forall id :: id in es ==> es[id].id == id
    requires e in s && e.id in es && es[e.id] == e
    ensures Without(es - {e.id}, s - {e}) == Without(es, s)
  {
    var a := Without(es - {e.id}, s - {e});
    var b := Without(es, s);
    forall id | id in es ensures id in a <==> id in b {
      assert id != e.id ==> es[id] != e;
    }
  }

  /** Dropping nothing leaves the table as it is. */
  lemma WithoutNothing(es: map<nat, Edge>)
    ensures Without(es, {}) == es
  {
  }

  /** The removeEdge rounds for the edges of es, in that order. */
  function EdgeRounds(keys: set<string>, es: seq<Edge>): seq<Hook>
  {
    if es == [] then [] else [Round(keys, EdgeRemoved(es[0]))] + EdgeRounds(keys, es[1..])
  }

  /** No edge occurs twice in es. */
  predicate Distinct(es: seq<Edge>)
  {
    forall i, j :: 0 <= i < j < |es| ==> es[i] != es[j]
  }

  /** Taking e first and then the rest of s, each once, takes every edge of
      s once, and logs e's round before the rest. */
  lemma OrderStep(keys: set<string>, log: seq<Hook>, s: set<Edge>, e: Edge, rest: seq<Edge>)
    requires e in s && Distinct(rest) && forall x :: x in rest <==> x in s - {e}
    ensures Distinct([e] + rest) && forall x :: x in [e] + rest <==> x in s
    ensures log + [Round(keys, EdgeRemoved(e))] + EdgeRounds(keys, rest) == log + EdgeRounds(keys, [e] + rest)
  {
    assert ([e] + rest)[1..] == rest;
    forall i, j | 0 <= i < j < |[e] + rest| ensures ([e] + rest)[i] != ([e] + rest)[j] {
      assert ([e] + rest)[j] == rest[j - 1] && rest[j - 1] in rest;
      if i > 0 {
        assert ([e] + rest)[i] == rest[i - 1];
      }
    }
  }

  // ---------------------------------------------------------------------
  // The store

  class DirectedAcyclicGraph {
    /** The node table: the node with id i is Concept(i, nodes[i]). */
    var nodes: map<nat, string>
    var edges: map<nat, Edge>
    var nodeIdCounter: nat
    var edgeIdCounter: nat
    var modules: map<string, ModuleRef>
    var properties: map<DagObject, map<string, string>>
    var hookLog: seq<Hook>
    /** The id each stored node tuple was stored under; it witnesses that
        no two stored edges have the same nodes. */
    ghost var tupleIds: map<seq<Node>, nat>
    var noChecks: bool
    const related: RelatedEdgeModule
    /** DAGNode.isValidName and PrimitiveNode.parseNode. */
    const isValidName: string -> bool
    const parsePrimitive: string -> Option<string>

    /** Node ids are below the counter and names are unique. */
    ghost predicate NodeTable()
      reads this`nodes, this`nodeIdCounter
    {
      && (forall id :: id in nodes ==> id < nodeIdCounter)
      && (forall i, j :: i in nodes && j in nodes && nodes[i] == nodes[j] ==> i == j)
    }

    /** Edges sit under their own ids, below the counter, and no two have
        the same nodes. */
    ghost predicate EdgeTable()
      reads this`edges, this`edgeIdCounter, this`tupleIds
    {
      forall id :: id in edges ==>
        && edges[id].id == id && id < edgeIdCounter
        && edges[id].nodes in tupleIds && tupleIds[edges[id].nodes] == id
    }

    /** No two stored edges have the same nodes. */
    lemma DistinctTuples()
      requires Valid()
      ensures forall i, j :: i in edges && j in edges && edges[i].nodes == edges[j].nodes ==> i == j
    {
    }

    /** Every stored edge holds a concept node, since the related-edge
        module indexes only such edges. */
    lemma StoredHaveConcept()
      requires Valid()
      ensures forall id :: id in edges ==> HasConcept(edges[id])
    {
      forall id | id in edges ensures HasConcept(edges[id]) {
        assert edges[id] in related.Contents;
      }
    }

    /** Every module sits under a name it is assignable to, and the two
        named modules sit under their own names when registered. */
    ghost predicate Registry()
      reads this`modules
    {
      && (forall k :: k in modules ==> WellFormed(modules[k]) && Assignable(k, modules[k]))
      && (RelatedEdges in modules.Values <==> RELATED in modules && modules[RELATED] == RelatedEdges)
      && (NodeAlias in modules.Values <==> ALIAS in modules && modules[ALIAS] == NodeAlias)
    }

    /** The related-edge module indexes exactly the stored edges; edges
        exist only while it is registered. */
    ghost predicate Synced()
      reads this`edges, this`modules, related
    {
      && related.Valid()
      && related.Contents == edges.Values
      && (RelatedEdges !in modules.Values ==> edges == map[])
    }

    ghost predicate Valid()
      reads this, related
    {
      NodeTable() && EdgeTable() && Registry() && Synced()
    }

    constructor (isValidName: string -> bool, parsePrimitive: string -> Option<string>)
      ensures Valid()
      ensures nodes == map[] && edges == map[] && modules == map[] && hookLog == []
      ensures this.isValidName == isValidName && this.parsePrimitive == parsePrimitive
    {
      nodes := map[];
      edges := map[];
      nodeIdCounter := 0;
      edgeIdCounter := 0;
      modules := map[];
      properties := map[];
      hookLog := [];
      tupleIds := map[];
      noChecks := false;
      related := new RelatedEdgeModule();
      this.isValidName := isValidName;
      this.parsePrimitive := parsePrimitive;
    }

    /** The related-edge module's own hook for ev. */
    method Notify(ev: Event)
      requires related.Valid()
      modifies related
      ensures related.Valid()
      ensures related.Contents == Effect(ev, old(related.Contents))
    {
      match ev
      case EdgeAdded(e) =>
        var _ := related.AddEdge(e);
      case EdgeRemoved(e) =>
        var _ := related.RemoveEdge(e);
      case Cleared =>
        related.Clear();
      case _ =>
    }

    /** Run one hook on every registered module, once per registry key; the
        related-edge module's own hook updates its index. */
    method Fire(ev: Event)
      requires related.Valid()
      modifies this`hookLog, related
      ensures related.Valid()
      ensures related.Contents ==
        if RelatedEdges in modules.Values then Effect(ev, old(related.Contents)) else old(related.Contents)
      ensures hookLog == old(hookLog) + [Round(modules.Keys, ev)]
    {
      var seen := CallHooks(ev);
      if seen {
        Notify(ev);
      }
    }

    /** Call ev's hook on the module under every registry key, and say
        whether the related-edge module was among them. */
    method CallHooks(ev: Event) returns (seen: bool)
      modifies this`hookLog
      ensures seen <==> RelatedEdges in modules.Values
      ensures hookLog == old(hookLog) + [Round(modules.Keys, ev)]
    {
      var keys := modules.Keys;
      var called: set<string> := {};
      seen := false;
      while keys != {}
        invariant keys + called == modules.Keys && keys !! called
        invariant seen ==> RelatedEdges in modules.Values
        invariant !seen ==> forall k :: k in called ==> modules[k] != RelatedEdges
        decreases |keys|
      {
        var k :| k in keys;
        assert k in modules;
        called := called + {k};
        if modules[k] == RelatedEdges {
          seen := true;
        }
        keys := keys - {k};
      }
      hookLog := hookLog + [Round(called, ev)];
    }

    /** addModule: register m under its own class name. */
    method AddModule(m: ModuleRef)
      requires Valid() && WellFormed(m)
      modifies this`modules
      ensures Valid()
      ensures modules == old(modules)[ClassName(m) := m]
    {
      modules := modules[ClassName(m) := m];
    }

    /** getModule: the module under the requested name, else the first
        assignable module, which is then cached under that name. */
    method GetModule(req: string) returns (r: Option<ModuleRef>)
      requires Valid()
      modifies this`modules
      ensures Valid()
      ensures old(req in modules) ==> r == Some(old(modules)[req]) && modules == old(modules)
      ensures !old(req in modules) && r.Some? ==>
        r.value in old(modules).Values && Assignable(req, r.value)
        && modules == old(modules)[req := r.value]
      ensures !old(req in modules) && r.None? ==>
        modules == old(modules) && forall k :: k in modules ==> !Assignable(req, modules[k])
      ensures r.Some? ==> req in modules && modules[req] == r.value
    {
      if req in modules {
        return Some(modules[req]);
      }
      var keys := modules.Keys;
      while keys != {}
        invariant keys <= modules.Keys
        invariant forall k :: k in modules && k !in keys ==> !Assignable(req, modules[k])
        decreases |keys|
      {
        var k :| k in keys;
        if Assignable(req, modules[k]) {
          var m := modules[k];
          ValuesAddFresh(modules, req, m);
          modules := modules[req := m];
          return Some(m);
        }
        keys := keys - {k};
      }
      return None;
    }

    /** The registry lookups the store makes for its two named modules never
        add a cache entry. */
    method GetNamedModule(req: string) returns (r: Option<ModuleRef>)
      requires Valid() && (req == RELATED || req == ALIAS)
      modifies this`modules
      ensures Valid() && modules == old(modules)
      ensures req == RELATED ==> (r.Some? <==> RelatedEdges in modules.Values) && (r.Some? ==> r.value == RelatedEdges)
      ensures req == ALIAS ==> (r.Some? <==> NodeAlias in modules.Values) && (r.Some? ==> r.value == NodeAlias)
    {
      r := GetModule(req);
    }

    /** getNodeByID. */
    function GetNodeById(id: int): (r: Option<Node>)
      requires Valid()
      reads this, related
      ensures r.Some? <==> id >= 0 && id in nodes
      ensures r.Some? ==> r.value == Concept(id, nodes[id])
    {
      if id >= 0 && id in nodes then Some(Concept(id, nodes[id])) else None
    }

    /** getEdgeByID. */
    function GetEdgeById(id: int): (r: Option<Edge>)
      requires Valid()
      reads this, related
      ensures r.Some? <==> id >= 0 && id in edges
      ensures r.Some? ==> r.value.id == id && r.value in edges.Values
    {
      if id >= 0 && id in edges then Some(edges[id]) else None
    }

    function GetNumNodes(): (r: nat)
      reads this
      ensures r == |nodes.Keys|
    {
      |nodes|
    }

    function GetNumEdges(): (r: nat)
      reads this
      ensures r == |edges.Keys|
    {
      |edges|
    }

    /** findDAGNode: ask the alias module for the nodes with this name and
        take the first. */
    method FindDagNode(name: string) returns (r: Result<Option<Node>>)
      requires Valid()
      modifies this`modules
      ensures Valid() && modules == old(modules)
      ensures r.Err? <==> NodeAlias !in modules.Values
      ensures r.Err? ==> r.error == NullPointer
      ensures r.Ok? ==> (r.value.None? <==> name !in nodes.Values)
      ensures r.Ok? && r.value.Some? ==>
        r.value.value.Concept? && r.value.value.name == name && r.value.value.id in nodes && nodes[r.value.value.id] == name
    {
      var alias := GetNamedModule(ALIAS);
      if alias.None? {
        return Err(NullPointer);
      }
      if name !in nodes.Values {
        return Ok(None);
      }
      var id :| id in nodes && nodes[id] == name;
      return Ok(Some(Concept(id, name)));
    }

    /** The node table, its counter, the hook log and the related-edge
        module are as they were. */
    twostate predicate NodesUntouched()
      reads this, related
    {
      nodes == old(nodes) && nodeIdCounter == old(nodeIdCounter) && hookLog == old(hookLog)
    }

    /** The outcome of looking a name up through the alias module: an error
        without that module, the node already named s, else a new node when
        createNew is set and the name is valid, else nothing. */
    twostate predicate NamedOutcome(s: string, createNew: bool, new r: Result<Option<Node>>)
      reads this, related
    {
      && (NodeAlias !in modules.Values ==> r == Err(NullPointer))
      && (NodeAlias in modules.Values && s in old(nodes).Values ==>
            r.Ok? && r.value.Some? && r.value.value.Concept? && r.value.value.name == s
            && r.value.value.id in old(nodes) && old(nodes)[r.value.value.id] == s)
      && (NodeAlias in modules.Values && s !in old(nodes).Values ==>
            if createNew && isValidName(s) then
              && r == Ok(Some(Concept(old(nodeIdCounter), s)))
              && nodes == old(nodes)[old(nodeIdCounter) := s]
              && nodeIdCounter == old(nodeIdCounter) + 1
              && hookLog == old(hookLog) + [Round(modules.Keys, NodeAdded(Concept(old(nodeIdCounter), s)))]
            else r == Ok(None))
      && (r != Ok(Some(Concept(old(nodeIdCounter), s))) ==> NodesUntouched())
    }

    /** The last case of findOrCreateNode: find the node by name, creating
        it when allowed. */
    method FindOrCreateNamed(s: string, createNew: bool) returns (r: Result<Option<Node>>)
      requires Valid()
      modifies this`nodes, this`nodeIdCounter, this`modules, this`hookLog
      ensures Valid() && modules == old(modules)
      ensures NamedOutcome(s, createNew, r)
      ensures r.Ok? && r.value.Some? ==>
        r.value.value.Concept? && r.value.value.id in nodes && nodes[r.value.value.id] == r.value.value.name
    {
      var found := FindDagNode(s);
      if found.Err? {
        return Err(found.error);
      }
      if found.value.None? && createNew && isValidName(s) {
        var node := InsertNode(s);
        return Ok(Some(node));
      }
      return found;
    }

    /** Store a new node named s under the next id and run every module's
        addNode hook. */
    method InsertNode(s: string) returns (node: Node)
      requires Valid() && s !in nodes.Values
      modifies this`nodes, this`nodeIdCounter, this`hookLog
      ensures Valid()
      ensures node == Concept(old(nodeIdCounter), s)
      ensures nodes == old(nodes)[old(nodeIdCounter) := s] && nodeIdCounter == old(nodeIdCounter) + 1
      ensures hookLog == old(hookLog) + [Round(modules.Keys, NodeAdded(node))]
    {
      node := Concept(nodeIdCounter, s);
      nodeIdCounter := nodeIdCounter + 1;
      nodes := nodes[node.id := s];
      var _ := CallHooks(NodeAdded(node));
    }

    /** findOrCreateNode: try the cases in order; only a valid, unknown name
        with createNew set adds a node to the table. */
    method FindOrCreateNode(text: Option<string>, createNew: bool, dagNodeOnly: bool, allowVariables: bool)
      returns (r: Result<Option<Node>>)
      requires Valid()
      modifies this`nodes, this`nodeIdCounter, this`modules, this`hookLog
      ensures Valid() && modules == old(modules)
      ensures var kind := Classify(text, createNew, dagNodeOnly);
        kind != ByName && kind != Anonymous ==> NodesUntouched()
      ensures Classify(text, createNew, dagNodeOnly) == NullText ==> r == Ok(None)
      ensures Classify(text, createNew, dagNodeOnly) == Anonymous ==>
        r == Ok(Some(Concept(old(nodeIdCounter), "")))
        && nodes == old(nodes) && nodeIdCounter == old(nodeIdCounter) + 1
        && hookLog == old(hookLog)
      ensures Classify(text, createNew, dagNodeOnly) == Literal ==>
        r == match Unquote(text.value) case Ok(v) => Ok(Some(Str(v))) case Err(x) => Err(x)
      ensures Classify(text, createNew, dagNodeOnly) == ById ==>
        r == if DigitsValue(text.value) > LONG_MAX then Err(NumberFormat) else Ok(GetNodeById(DigitsValue(text.value)))
      ensures Classify(text, createNew, dagNodeOnly) == Primitive ==>
        r == Ok(match parsePrimitive(text.value[1..]) case None => None case Some(v) => Some(Prim(v)))
      ensures Classify(text, createNew, dagNodeOnly) == ByName ==> NamedOutcome(text.value, createNew, r)
      ensures r.Ok? && r.value.Some? && Classify(text, createNew, dagNodeOnly) == ByName ==>
        r.value.value.Concept? && r.value.value.id in nodes && nodes[r.value.value.id] == r.value.value.name
    {
      if text.None? {
        return Ok(None);
      }
      var s := text.value;
      if createNew && s == [] {
        var node := Concept(nodeIdCounter, "");
        nodeIdCounter := nodeIdCounter + 1;
        return Ok(Some(node));
      } else if !dagNodeOnly && |s| > 0 && s[0] == '"' {
        var v := StripQuotes(s);
        match v
        case Ok(value) => return Ok(Some(Str(value)));
        case Err(x) => return Err(x);
      } else if IsDigits(s) {
        var id := DigitsValue(s);
        if id > LONG_MAX {
          return Err(NumberFormat);
        }
        return Ok(GetNodeById(id));
      } else if !dagNodeOnly && |s| > 0 && s[0] == '\'' {
        var p := parsePrimitive(s[1..]);
        match p
        case None => return Ok(None);
        case Some(v) => return Ok(Some(Prim(v)));
      }
      r := FindOrCreateNamed(s, createNew);
    }

    /** Looking a name up twice, creating it the first time if need be,
        gives the same answer both times, and the node table grows by at
        most one. */
    method FindOrCreateNodeTwice(s: string, createNew: bool, dagNodeOnly: bool) returns (r1: Result<Option<Node>>, r2: Result<Option<Node>>)
      requires Valid() && Classify(Some(s), createNew, dagNodeOnly) == ByName
      modifies this`nodes, this`nodeIdCounter, this`modules, this`hookLog
      ensures Valid()
      ensures r1 == r2
      ensures |nodes| <= |old(nodes)| + 1
      ensures NodeAlias in modules.Values && createNew && isValidName(s) ==>
        r1.Ok? && r1.value.Some? && r1.value.value.Concept? && r1.value.value.name == s
    {
      r1 := FindOrCreateNode(Some(s), createNew, dagNodeOnly, false);
      ghost var mid := nodes;
      r2 := FindOrCreateNode(Some(s), createNew, dagNodeOnly, false);
      if r1.Ok? && r1.value.Some? {
        assert s in mid.Values by { assert mid[r1.value.value.id] == s; }
      }
    }

    /** findEdge: the stored edge with exactly these nodes, found through
        the related-edge module. */
    method FindEdge(edgeNodes: seq<Node>) returns (r: Result<Option<Edge>>)
      requires Valid()
      modifies this`modules
      ensures Valid() && modules == old(modules)
      ensures r.Err? <==>
        RelatedEdges !in modules.Values || forall i :: 0 <= i < |edgeNodes| ==> !edgeNodes[i].Concept?
      ensures r.Err? ==> r.error == NullPointer
      ensures r.Ok? ==> (r.value.None? <==> forall id :: id in edges ==> edges[id].nodes != edgeNodes)
      ensures r.Ok? && r.value.Some? ==>
        r.value.value.id in edges && edges[r.value.value.id] == r.value.value && r.value.value.nodes == edgeNodes
    {
      var relMod := GetNamedModule(RELATED);
      if relMod.None? {
        return Err(NullPointer);
      }
      var found := related.FindEdgeByNodes(edgeNodes);
      if found.None? {
        return Err(NullPointer);
      }
      var hits := found.value;
      if hits == {} {
        forall id | id in edges ensures edges[id].nodes != edgeNodes {
          var x := edges[id];
          assert x in edges.Values;
          assert x.nodes == edgeNodes ==> x in hits;
        }
        return Ok(None);
      }
      var e :| e in hits;
      return Ok(Some(e));
    }

    /** findEdge as written: the related-edge module's search without the
        length check, so a longer stored edge can answer and a shorter one
        can make the search throw (see EdgeQueryFacts.PrefixEdgeMatches and
        EdgeQueryFacts.ShorterEdgeThrows). */
    method FindEdgeAsWritten(edgeNodes: seq<Node>) returns (r: Result<Option<Edge>>)
      requires Valid()
      modifies this`modules
      ensures Valid() && modules == old(modules)
      ensures RelatedEdges !in modules.Values ==> r == Err(NullPointer)
      ensures RelatedEdges in modules.Values ==>
        match FindByNodesAsWritten(related.related, edgeNodes)
        case Err(x) => r == Err(x)
        case Ok(None) => r == Err(NullPointer)
        case Ok(Some(hits)) => r.Ok? && (r.value.None? <==> hits == {}) && (r.value.Some? ==> r.value.value in hits)
    {
      var relMod := GetNamedModule(RELATED);
      if relMod.None? {
        return Err(NullPointer);
      }
      var found := related.FindEdgeByNodesAsWritten(edgeNodes);
      if found.Err? {
        return Err(found.error);
      }
      if found.value.None? {
        return Err(NullPointer);
      }
      var hits := found.value.value;
      if hits == {} {
        return Ok(None);
      }
      var e :| e in hits;
      return Ok(Some(e));
    }

    /** The existence check of findOrCreateEdge, made through
        findOrCreateNode on each concept node's identifier. */
    method CheckConcepts(createNodes: bool, edgeNodes: seq<Node>) returns (r: Result<bool>)
      requires Valid()
      modifies this`nodes, this`nodeIdCounter, this`modules, this`hookLog
      ensures Valid() && modules == old(modules) && NodesUntouched()
      ensures r == ConceptsCheck(nodes, edgeNodes)
    {
      var i := 0;
      while i < |edgeNodes|
        invariant 0 <= i <= |edgeNodes|
        invariant Valid() && modules == old(modules) && NodesUntouched()
        invariant ConceptsCheck(nodes, edgeNodes) == ConceptsCheck(nodes, edgeNodes[i..])
      {
        assert edgeNodes[i..][1..] == edgeNodes[i + 1..];
        var n := edgeNodes[i];
        if n.Concept? {
          var check := LookupConcept(n.id, createNodes);
          if check.Err? {
            return Err(check.error);
          }
          if !check.value {
            return Ok(false);
          }
        }
        i := i + 1;
      }
      return Ok(true);
    }

    /** One step of the existence check: findOrCreateNode on the node's
        identifier, which names it by id, so the node is found exactly when
        its id is in the table. */
    method LookupConcept(id: nat, createNodes: bool) returns (r: Result<bool>)
      requires Valid()
      modifies this`nodes, this`nodeIdCounter, this`modules, this`hookLog
      ensures Valid() && modules == old(modules) && NodesUntouched()
      ensures r == if id > LONG_MAX then Err(NumberFormat) else Ok(id in nodes)
    {
      DecimalRoundTrip(id);
      var check := FindOrCreateNode(Some(DecimalText(id)), createNodes, false, false);
      if check.Err? {
        return Err(check.error);
      }
      return Ok(check.value.Some?);
    }

    /** Store a new edge under the next id and run every module's addEdge
        hook; its node tuple is new and holds a concept node. */
    method InsertEdge(edgeNodes: seq<Node>) returns (edge: Edge)
      requires Valid() && RelatedEdges in modules.Values
      requires exists i :: 0 <= i < |edgeNodes| && edgeNodes[i].Concept?
      requires forall id :: id in edges ==> edges[id].nodes != edgeNodes
      modifies this`edges, this`edgeIdCounter, this`tupleIds, this`hookLog, related
      ensures Valid()
      ensures edge == Edge(old(edgeIdCounter), edgeNodes) && old(edgeIdCounter) !in old(edges)
      ensures edges == old(edges)[old(edgeIdCounter) := edge] && edgeIdCounter == old(edgeIdCounter) + 1
      ensures hookLog == old(hookLog) + [Round(modules.Keys, EdgeAdded(edge))]
    {
      edge := StoreEdge(edgeNodes);
      Fire(EdgeAdded(edge));
    }

    /** Put a new edge into the table under the next id, leaving the hooks
        to the caller. */
    method StoreEdge(edgeNodes: seq<Node>) returns (edge: Edge)
      requires Valid() && RelatedEdges in modules.Values
      requires exists i :: 0 <= i < |edgeNodes| && edgeNodes[i].Concept?
      requires forall id :: id in edges ==> edges[id].nodes != edgeNodes
      modifies this`edges, this`edgeIdCounter, this`tupleIds
      ensures EdgeTable() && NodeTable() && Registry()
      ensures edge == Edge(old(edgeIdCounter), edgeNodes) && old(edgeIdCounter) !in old(edges) && HasConcept(edge)
      ensures edges == old(edges)[old(edgeIdCounter) := edge] && edgeIdCounter == old(edgeIdCounter) + 1
      ensures edges.Values == old(edges).Values + {edge}
    {
      assert edgeIdCounter !in edges;
      edge := Edge(edgeIdCounter, edgeNodes);
      ValuesAddFresh(edges, edge.id, edge);
      edgeIdCounter := edgeIdCounter + 1;
      edges := edges[edge.id := edge];
      tupleIds := tupleIds[edgeNodes := edge.id];
    }

    /** findOrCreateEdge: the stored edge with these nodes if there is one;
        otherwise, unless checks are off, every concept node must be in the
        table; then a new edge is stored and announced. */
    method FindOrCreateEdge(createNodes: bool, edgeNodes: seq<Node>) returns (r: Result<EdgeOutcome>)
      requires Valid()
      modifies this`nodes, this`nodeIdCounter, this`modules, this`hookLog, related, this`edges, this`edgeIdCounter, this`tupleIds
      ensures Valid() && modules == old(modules) && nodes == old(nodes)
      ensures RelatedEdges !in modules.Values || (forall i :: 0 <= i < |edgeNodes| ==> !edgeNodes[i].Concept?) ==>
        r == Err(NullPointer)
      ensures (exists id :: id in old(edges) && old(edges)[id].nodes == edgeNodes) && RelatedEdges in modules.Values ==>
        r.Ok? && r.value.StoredEdge? && r.value.edge in old(edges).Values && edges == old(edges)
      ensures r.Ok? && r.value.StoredEdge? ==>
        r.value.edge.id in edges && edges[r.value.edge.id] == r.value.edge && r.value.edge.nodes == edgeNodes
      ensures r.Ok? && r.value.NonExistentNode? ==>
        !noChecks && exists i :: 0 <= i < |edgeNodes| && edgeNodes[i].Concept? && edgeNodes[i].id !in nodes
      ensures r.Err? && r.error != NullPointer ==>
        r.error == NumberFormat && exists i :: 0 <= i < |edgeNodes| && edgeNodes[i].Concept? && edgeNodes[i].id > LONG_MAX
      ensures edges == old(edges) || (
        && r == Ok(StoredEdge(Edge(old(edgeIdCounter), edgeNodes)))
        && old(edgeIdCounter) !in old(edges)
        && edges == old(edges)[old(edgeIdCounter) := Edge(old(edgeIdCounter), edgeNodes)]
        && hookLog == old(hookLog) + [Round(modules.Keys, EdgeAdded(Edge(old(edgeIdCounter), edgeNodes)))])
      ensures edges == old(edges) ==> hookLog == old(hookLog)
      ensures RelatedEdges in modules.Values && (forall id :: id in old(edges) ==> old(edges)[id].nodes != edgeNodes) ==>
        && (!noChecks && ConceptsCheck(old(nodes), edgeNodes) == Ok(false) ==>
              r == Ok(NonExistentNode) && edges == old(edges) && hookLog == old(hookLog))
        && (!noChecks && ConceptsCheck(old(nodes), edgeNodes).Err? ==>
              r == Err(NumberFormat) && edges == old(edges) && hookLog == old(hookLog))
        && ((noChecks || ConceptsCheck(old(nodes), edgeNodes) == Ok(true)) && (exists i :: 0 <= i < |edgeNodes| && edgeNodes[i].Concept?) ==>
              r == Ok(StoredEdge(Edge(old(edgeIdCounter), edgeNodes))))
    {
      StoredHaveConcept();
      ConceptsCheckMeaning(nodes, edgeNodes);
      var found := FindEdge(edgeNodes);
      if found.Err? {
        return Err(found.error);
      }
      if found.value.Some? {
        return Ok(StoredEdge(found.value.value));
      }
      r := CreateEdge(createNodes, edgeNodes);
    }

    /** The second half of findOrCreateEdge, once no stored edge has these
        nodes: unless checks are off, every concept node must be in the
        table; then a new edge is stored and announced. */
    method CreateEdge(createNodes: bool, edgeNodes: seq<Node>) returns (r: Result<EdgeOutcome>)
      requires Valid() && RelatedEdges in modules.Values
      requires exists i :: 0 <= i < |edgeNodes| && edgeNodes[i].Concept?
      requires forall id :: id in edges ==> edges[id].nodes != edgeNodes
      modifies this`nodes, this`nodeIdCounter, this`modules, this`hookLog, related, this`edges, this`edgeIdCounter, this`tupleIds
      ensures Valid() && modules == old(modules) && nodes == old(nodes)
      ensures r.Ok? && r.value.NonExistentNode? ==>
        !noChecks && exists i :: 0 <= i < |edgeNodes| && edgeNodes[i].Concept? && edgeNodes[i].id !in nodes
      ensures r.Err? ==>
        r.error == NumberFormat && exists i :: 0 <= i < |edgeNodes| && edgeNodes[i].Concept? && edgeNodes[i].id > LONG_MAX
      ensures noChecks ==> r.Ok? && r.value.StoredEdge?
      ensures edges == old(edges) || (
        && r == Ok(StoredEdge(Edge(old(edgeIdCounter), edgeNodes)))
        && old(edgeIdCounter) !in old(edges)
        && edges == old(edges)[old(edgeIdCounter) := Edge(old(edgeIdCounter), edgeNodes)]
        && hookLog == old(hookLog) + [Round(modules.Keys, EdgeAdded(Edge(old(edgeIdCounter), edgeNodes)))])
      ensures edges == old(edges) ==> hookLog == old(hookLog) && (r.Err? || r.value.NonExistentNode?)
      ensures !noChecks && ConceptsCheck(old(nodes), edgeNodes) == Ok(false) ==>
        r == Ok(NonExistentNode) && edges == old(edges) && hookLog == old(hookLog)
      ensures !noChecks && ConceptsCheck(old(nodes), edgeNodes).Err? ==>
        r == Err(NumberFormat) && edges == old(edges) && hookLog == old(hookLog)
      ensures noChecks || ConceptsCheck(old(nodes), edgeNodes) == Ok(true) ==>
        r == Ok(StoredEdge(Edge(old(edgeIdCounter), edgeNodes)))
    {
      if !noChecks {
        var ok := CheckConcepts(createNodes, edgeNodes);
        ConceptsCheckMeaning(nodes, edgeNodes);
        if ok.Err? {
          return Err(ok.error);
        }
        if !ok.value {
          return Ok(NonExistentNode);
        }
      }
      var edge := InsertEdge(edgeNodes);
      return Ok(StoredEdge(edge));
    }

    /** Once findOrCreateEdge has returned an edge, asking again for the
        same nodes returns that same edge and changes nothing. */
    method FindOrCreateEdgeTwice(createNodes: bool, edgeNodes: seq<Node>) returns (r1: Result<EdgeOutcome>, r2: Result<EdgeOutcome>)
      requires Valid()
      modifies this`nodes, this`nodeIdCounter, this`modules, this`hookLog, related, this`edges, this`edgeIdCounter, this`tupleIds
      ensures Valid()
      ensures r1.Ok? && r1.value.StoredEdge? ==> r2 == r1
    {
      r1 := FindOrCreateEdge(createNodes, edgeNodes);
      ghost var mid := edges;
      r2 := FindOrCreateEdge(createNodes, edgeNodes);
      if r1.Ok? && r1.value.StoredEdge? {
        DistinctTuples();
        assert r2.Ok? && r2.value.StoredEdge? && edges == mid;
      }
    }

    /** removeEdge(edge): false for null or an edge not in the table;
        otherwise remove it and run every module's removeEdge hook. */
    method RemoveEdge(edge: Option<Edge>) returns (r: bool)
      requires Valid()
      modifies this`edges, this`hookLog, related
      ensures Valid()
      ensures r == (edge.Some? && edge.value.id in old(edges) && old(edges)[edge.value.id] == edge.value)
      ensures edges == if r then old(edges) - {edge.value.id} else old(edges)
      ensures r ==> hookLog == old(hookLog) + [Round(modules.Keys, EdgeRemoved(edge.value))]
      ensures !r ==> hookLog == old(hookLog) && unchanged(related)
    {
      if edge.None? {
        return false;
      }
      var e := edge.value;
      if !(e.id in edges && edges[e.id] == e) {
        return false;
      }
      DropEdge(e);
      Fire(EdgeRemoved(e));
      return true;
    }

    /** Take a stored edge out of the table, leaving the hooks to the caller. */
    method DropEdge(e: Edge)
      requires Valid() && e.id in edges && edges[e.id] == e
      modifies this`edges
      ensures EdgeTable() && NodeTable() && Registry()
      ensures edges == old(edges) - {e.id} && edges.Values == old(edges).Values - {e}
      ensures RelatedEdges in modules.Values
    {
      ValuesRemoveUnique(edges, e.id);
      edges := edges - {e.id};
    }

    /** removeEdge(id). */
    method RemoveEdgeById(id: int) returns (r: bool)
      requires Valid()
      modifies this`edges, this`hookLog, related
      ensures Valid()
      ensures r == (id >= 0 && id in old(edges))
      ensures edges == if r then old(edges) - {id} else old(edges)
      ensures r ==> hookLog == old(hookLog) + [Round(modules.Keys, EdgeRemoved(old(edges)[id]))]
      ensures !r ==> hookLog == old(hookLog) && unchanged(related)
    {
      r := RemoveEdge(GetEdgeById(id));
    }

    /** Remove every edge of s from the table, one removeEdge at a time;
        order is the order the edges were taken in, each once. */
    method RemoveEach(s: set<Edge>) returns (ghost order: seq<Edge>)
      requires Valid() && forall e :: e in s ==> e.id in edges && edges[e.id] == e
      modifies this`edges, this`hookLog, related
      ensures Valid()
      ensures edges == Without(old(edges), s)
      ensures Distinct(order) && forall e :: e in order <==> e in s
      ensures hookLog == old(hookLog) + EdgeRounds(modules.Keys, order)
      decreases |s|
    {
      if s == {} {
        WithoutNothing(edges);
        return [];
      }
      var e :| e in s;
      ghost var before := edges;
      ghost var log := hookLog;
      var _ := RemoveEdge(Some(e));
      ghost var rest := RemoveEach(s - {e});
      WithoutStep(before, s, e);
      order := [e] + rest;
      OrderStep(modules.Keys, log, s, e, rest);
    }

    /** removeNode(node): false for null or a node not in the table;
        otherwise remove it, remove every edge that contains it, and run
        every module's removeNode hook. */
    method RemoveNode(node: Option<Node>) returns (r: bool, ghost order: seq<Edge>)
      requires Valid()
      requires node.Some? ==> node.value.Concept?
      modifies this`nodes, this`edges, this`modules, this`hookLog, related
      ensures Valid() && modules == old(modules)
      ensures r == (node.Some? && node.value.id in old(nodes) && old(nodes)[node.value.id] == node.value.name)
      ensures nodes == if r then old(nodes) - {node.value.id} else old(nodes)
      ensures edges == if r then Without(old(edges), set e | e in old(edges).Values && node.value in e.nodes) else old(edges)
      ensures r ==> Distinct(order) && forall e :: e in order <==> e in old(edges).Values && node.value in e.nodes
      ensures r ==> hookLog == old(hookLog) + EdgeRounds(modules.Keys, order) + [Round(modules.Keys, NodeRemoved(node.value))]
      ensures !r ==> hookLog == old(hookLog) && unchanged(related)
    {
      if node.None? {
        return false, [];
      }
      var n := node.value;
      if !(n.id in nodes && nodes[n.id] == n.name) {
        return false, [];
      }
      nodes := nodes - {n.id};
      var toRemove := RelatedEdgesOf(n);
      forall e | e in toRemove ensures e.id in edges && edges[e.id] == e {
        var id :| id in edges && edges[id] == e;
      }
      order := RemoveEach(toRemove);
      var _ := CallHooks(NodeRemoved(n));
      r := true;
    }

    /** The edges removeNode takes out with a node: through the related-edge
        module when it is registered, otherwise by scanning the table. */
    method RelatedEdgesOf(n: Node) returns (r: set<Edge>)
      requires Valid() && n.Concept?
      ensures r == set e | e in edges.Values && n in e.nodes
    {
      if RELATED in modules {
        SingleNodeQuery(related.related, related.Contents, n);
        var q := related.Execute([NodeArg(n)]);
        r := q.value.value;
      } else {
        r := ScanEdges(n);
      }
    }

    /** The scan removeNode falls back on: every stored edge containing n. */
    method ScanEdges(n: Node) returns (r: set<Edge>)
      ensures r == set e | e in edges.Values && n in e.nodes
    {
      var removed: seq<Edge> := [];
      var rest := edges.Keys;
      while rest != {}
        invariant rest <= edges.Keys
        invariant forall e :: e in removed <==> exists id :: id in edges && id !in rest && edges[id] == e && n in e.nodes
        decreases |rest|
      {
        var id :| id in rest;
        if n in edges[id].nodes {
          removed := removed + [edges[id]];
        }
        rest := rest - {id};
      }
      r := set e | e in removed;
    }

    /** removeNode(id). */
    method RemoveNodeById(id: int) returns (r: bool, ghost order: seq<Edge>)
      requires Valid()
      modifies this`nodes, this`edges, this`modules, this`hookLog, related
      ensures Valid()
      ensures r == (id >= 0 && id in old(nodes))
      ensures nodes == if r then old(nodes) - {id} else old(nodes)
      ensures r ==> edges == Without(old(edges), set e | e in old(edges).Values && Concept(id, old(nodes)[id]) in e.nodes)
      ensures r ==> Distinct(order) && forall e :: e in order <==> e in old(edges).Values && Concept(id, old(nodes)[id]) in e.nodes
      ensures r ==> hookLog == old(hookLog) + EdgeRounds(modules.Keys, order) + [Round(modules.Keys, NodeRemoved(Concept(id, old(nodes)[id])))]
      ensures !r ==> edges == old(edges) && hookLog == old(hookLog) && unchanged(related)
    {
      r, order := RemoveNode(GetNodeById(id));
    }

    /** addProperty: set the property and run every module's hook. */
    method AddProperty(obj: DagObject, key: string, value: string)
      requires Valid()
      modifies this`properties, this`hookLog
      ensures Valid()
      ensures obj in properties && properties[obj] == (if obj in old(properties) then old(properties)[obj] else map[])[key := value]
      ensures forall o :: o in old(properties) && o != obj ==> o in properties && properties[o] == old(properties)[o]
      ensures hookLog == old(hookLog) + [Round(modules.Keys, PropertyAdded(obj, key, value))]
    {
      var props := if obj in properties then properties[obj] else map[];
      properties := properties[obj := props[key := value]];
      var _ := CallHooks(PropertyAdded(obj, key, value));
    }

    /** removeProperty: drop the property and run every module's hook. */
    method RemoveProperty(obj: DagObject, key: string)
      requires Valid()
      modifies this`properties, this`hookLog
      ensures Valid()
      ensures obj in old(properties) ==> obj in properties && properties[obj] == old(properties)[obj] - {key}
      ensures obj !in old(properties) ==> properties == old(properties)
      ensures forall o :: o in old(properties) && o != obj ==> o in properties && properties[o] == old(properties)[o]
      ensures hookLog == old(hookLog) + [Round(modules.Keys, PropertyRemoved(obj, key))]
    {
      if obj in properties {
        properties := properties[obj := properties[obj] - {key}];
      }
      var _ := CallHooks(PropertyRemoved(obj, key));
    }

    /** clear: empty both tables and run every module's clear hook. */
    method Clear()
      requires Valid()
      modifies this`nodes, this`edges, this`hookLog, related
      ensures Valid()
      ensures nodes == map[] && edges == map[]
      ensures hookLog == old(hookLog) + [Round(modules.Keys, Cleared)]
    {
      nodes := map[];
      edges := map[];
      Fire(Cleared);
    }
  }
}
