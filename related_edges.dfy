/** RelatedEdgeModule: the index from each concept node to the edges that
    hold it, by position, and the query over it. The index is the field
    `related`; the ghost field Contents is the set of edges it stands for. */
module RelatedEdges {
  import opened Base
  import opened EdgeQuery
  import opened EdgeQueryFacts

  class RelatedEdgeModule {
    var related: IndexMap
    ghost var Contents: set<Edge>

    ghost predicate Valid()
      reads this
    {
      IndexOf(related, Contents)
    }

    constructor ()
      ensures Valid() && Contents == {}
    {
      related := map[];
      Contents := {};
    }

    /** asIndexed: the nodes interleaved with their 1-based positions. */
    method AsIndexed(nodes: seq<Node>) returns (r: seq<Arg>)
      ensures |r| == 2 * |nodes|
      ensures forall i :: 0 <= i < |nodes| ==> r[2 * i] == NodeArg(nodes[i]) && r[2 * i + 1] == PosArg(i + 1)
      ensures r == Indexed(nodes)
    {
      var indexed := new Arg[2 * |nodes|](_ => PosArg(0));
      var i := 0;
      while i < |nodes|
        invariant 0 <= i <= |nodes|
        invariant forall j :: 0 <= j < i ==> indexed[2 * j] == NodeArg(nodes[j]) && indexed[2 * j + 1] == PosArg(j + 1)
      {
        indexed[i * 2] := NodeArg(nodes[i]);
        indexed[i * 2 + 1] := PosArg(i + 1);
        i := i + 1;
      }
      r := indexed[..];
      IndexedLength(nodes, 0);
      forall i | 0 <= i < |nodes|
        ensures r[2 * i] == NodeArg(nodes[i]) && r[2 * i + 1] == PosArg(i + 1)
        ensures Indexed(nodes)[2 * i] == r[2 * i] && Indexed(nodes)[2 * i + 1] == r[2 * i + 1]
      {
        assert r[2 * i] == indexed[2 * i] && r[2 * i + 1] == indexed[2 * i + 1];
        IndexedAt(nodes, 0, i);
      }
      forall k | 0 <= k < |r| ensures r[k] == Indexed(nodes)[k] {
        assert k == 2 * (k / 2) || k == 2 * (k / 2) + 1;
      }
    }

    /** getEdges without creation: the bucket for key, all of the node's
        edges without a key, empty for an unknown node or position. */
    method GetEdges(n: Node, key: Option<int>) returns (r: set<Edge>)
      requires Valid() && n.Concept?
      ensures forall e :: e in r <==>
        (e in Contents && match key case None => n in e.nodes case Some(k) => At(e, n, k))
      ensures r == Lookup(related, n, key)
    {
      if n !in related {
        r := {};
      } else {
        match key
        case None => r := AllEdges(related[n]);
        case Some(k) => r := if k in related[n] then related[n][k] else {};
      }
      LookupRaw(related, Contents, n, key);
    }

    /** locateEdgeCollections(false, args): read the arguments and look up a
        collection for every concept-node constraint. */
    method LocateEdgeCollections(args: seq<Arg>) returns (r: Result<seq<EdgeCol>>)
      requires Valid()
      ensures r.Err? <==> Parse(args).Err?
      ensures r.Err? ==> r.error == ClassCast == Parse(args).error
      ensures r.Ok? ==> r.value == Locate(related, Parse(args).value)
    {
      var cols: seq<EdgeCol> := [];
      ghost var read: seq<Constraint> := [];
      var i := 0;
      PrependEmpty(args);
      while i < |args|
        invariant 0 <= i <= |args|
        invariant Parse(args) == Prepend(read, Parse(args[i..]))
        invariant cols == Locate(related, read)
      {
        if args[i].PosArg? {
          ParseCastFails(args, i);
          return Err(ClassCast);
        }
        ParseStep(args, i);
        var n := args[i].node;
        var additive := true;
        var index: Option<int> := None;
        ghost var sel: Option<int> := None;
        if i < |args| - 1 && args[i + 1].PosArg? {
          i := i + 1;
          var p := args[i].pos;
          sel := Some(p);
          if p < 0 {
            additive := false;
            p := -p;
          }
          index := Some(p);
        }
        i := i + 1;
        PrependAssoc(read, [Constraint(n, sel)], Parse(args[i..]));
        LocateSnoc(related, read, Constraint(n, sel));
        read := read + [Constraint(n, sel)];
        if n.Concept? {
          var edges := GetEdges(n, index);
          cols := cols + [EdgeCol(additive, edges)];
        }
      }
      assert read + [] == read;
      r := Ok(cols);
    }

    /** Sort the collections and fold them: the first seeds the result, an
        additive one is intersected, a subtractive one removed. The loop
        returns early once the result is empty. */
    method Candidates(cols: seq<EdgeCol>) returns (r: Option<set<Edge>>, emptied: bool)
      ensures r == Fold(Sort(cols))
      ensures emptied ==> r == Some({})
    {
      var sorted := Sort(cols);
      var edges: Option<set<Edge>> := None;
      var i := 0;
      while i < |sorted|
        invariant 0 <= i <= |sorted|
        invariant i == 0 <==> edges.None?
        invariant i > 0 ==> Fold(sorted) == Some(FoldFrom(edges.value, sorted[i..]))
      {
        var col := sorted[i];
        if edges.None? {
          edges := Some(col.edges);
        } else if col.additive {
          edges := Some(edges.value * col.edges);
        } else {
          edges := Some(edges.value - col.edges);
        }
        assert sorted[i..][1..] == sorted[i + 1..];
        i := i + 1;
        if edges.value == {} {
          FoldFromEmpty(sorted[i..]);
          return edges, true;
        }
      }
      return edges, false;
    }

    /** One edge against the non-concept checks, stopping at the first that
        fails; an index outside the node array throws. */
    static method CheckNonConcepts(e: Edge, ps: seq<NonConcept>) returns (r: Check)
      ensures r == Pass <==> forall k :: 0 <= k < |ps| ==> Matches(e, ps[k])
      ensures r == CheckEdge(e, ps)
    {
      var j := 0;
      while j < |ps|
        invariant 0 <= j <= |ps|
        invariant CheckEdge(e, ps) == CheckEdge(e, ps[j..])
      {
        assert ps[j..][1..] == ps[j + 1..];
        var p := ps[j];
        if p.index == -1 {
          if p.node !in e.nodes {
            r := Fail;
            CheckEdgeMeaning(e, ps);
            return;
          }
        } else if p.index < 0 || p.index >= |e.nodes| {
          r := Throw;
          CheckEdgeMeaning(e, ps);
          return;
        } else if e.nodes[p.index] != p.node {
          r := Fail;
          CheckEdgeMeaning(e, ps);
          return;
        }
        j := j + 1;
      }
      r := Pass;
      CheckEdgeMeaning(e, ps);
    }

    /** filterNonDAGs: collect the non-concept constraints, then keep the
        candidates that meet all of them. */
    static method FilterNonDags(edges: Option<set<Edge>>, args: seq<Arg>) returns (r: Result<Option<set<Edge>>>)
      requires Parse(args).Ok?
      ensures r == Filter(edges, Parse(args).value)
      ensures r.Ok? && r.value.Some? && edges.Some? ==> r.value.value <= edges.value
    {
      var ps: seq<NonConcept> := [];
      ghost var read: seq<Constraint> := [];
      var i := 0;
      PrependEmpty(args);
      while i < |args|
        invariant 0 <= i <= |args|
        invariant Parse(args) == Prepend(read, Parse(args[i..]))
        invariant ps == NonConcepts(read)
      {
        if args[i].PosArg? {
          ParseCastFails(args, i);
          assert false;
        }
        ParseStep(args, i);
        var node := args[i].node;
        var index := -1;
        ghost var sel: Option<int> := None;
        if i < |args| - 1 && args[i + 1].PosArg? {
          i := i + 1;
          index := args[i].pos - 1;
          sel := Some(args[i].pos);
        }
        i := i + 1;
        PrependAssoc(read, [Constraint(node, sel)], Parse(args[i..]));
        NonConceptsSnoc(read, Constraint(node, sel));
        read := read + [Constraint(node, sel)];
        if !node.Concept? {
          ps := ps + [NonConcept(node, index)];
        }
      }
      assert read + [] == read;
      if ps == [] || edges.None? {
        return Ok(edges);
      }
      var filtered: set<Edge> := {};
      var rest := edges.value;
      while rest != {}
        invariant rest <= edges.value
        invariant forall e :: e in filtered <==> e in edges.value && e !in rest && CheckEdge(e, ps) == Pass
        invariant forall e :: e in edges.value && e !in rest ==> CheckEdge(e, ps) != Throw
        decreases |rest|
      {
        var e :| e in rest;
        var check := CheckNonConcepts(e, ps);
        if check == Throw {
          return Err(IndexOutOfBounds);
        }
        if check == Pass {
          filtered := filtered + {e};
        }
        rest := rest - {e};
      }
      assert filtered == set e | e in edges.value && CheckEdge(e, ps) == Pass;
      r := Ok(Some(filtered));
    }

    /** execute(args). */
    method Execute(args: seq<Arg>) returns (r: Result<Option<set<Edge>>>)
      requires Valid()
      ensures r == EdgeQuery.Execute(related, args)
    {
      var located := LocateEdgeCollections(args);
      if located.Err? {
        return Err(located.error);
      }
      var edges, emptied := Candidates(located.value);
      if emptied {
        FilterEmpty(Parse(args).value);
        return Ok(edges);
      }
      r := FilterNonDags(edges, args);
    }

    /** findEdgeByNodes as written: execute(asIndexed(nodes)). */
    method FindEdgeByNodesAsWritten(nodes: seq<Node>) returns (r: Result<Option<set<Edge>>>)
      requires Valid()
      ensures r == FindByNodesAsWritten(related, nodes)
    {
      var indexed := AsIndexed(nodes);
      r := Execute(indexed);
    }

    /** findEdgeByNodes with the arity check: the edges whose node sequence is
        exactly nodes, or null when no node is a concept. */
    method FindEdgeByNodes(nodes: seq<Node>) returns (r: Option<set<Edge>>)
      requires Valid()
      ensures (exists i :: 0 <= i < |nodes| && nodes[i].Concept?) ==>
        r == Some(set e | e in Contents && e.nodes == nodes)
      ensures (forall i :: 0 <= i < |nodes| ==> !nodes[i].Concept?) ==> r == None
      ensures r == FindByNodes(related, nodes)
    {
      var indexed := AsIndexed(nodes);
      ParseIndexed(nodes, 0);
      var located := LocateEdgeCollections(indexed);
      var edges, _ := Candidates(located.value);
      if edges.None? {
        r := None;
      } else {
        r := Some(set e | e in edges.value && e.nodes == nodes);
      }
      if exists i :: 0 <= i < |nodes| && nodes[i].Concept? {
        FindByNodesMeaning(related, Contents, nodes);
      } else {
        FindByNodesWithoutConcepts(related, nodes);
      }
    }

    /** addEdge: put e into the bucket of every concept node of e at that
        node's position, creating the node's map and the bucket as needed.
        An edge without a concept node is not indexed. Always true. */
    method AddEdge(e: Edge) returns (r: bool)
      requires Valid()
      modifies this
      ensures Valid()
      ensures Contents == if HasConcept(e) then old(Contents) + {e} else old(Contents)
      ensures r
    {
      var i := 0;
      while i < |e.nodes|
        invariant 0 <= i <= |e.nodes|
        invariant forall n :: n in related ==> n.Concept?
        invariant forall n, p, x :: x in Bucket(related, n, p) <==>
          x in Bucket(old(related), n, p) || (x == e && p <= i && At(e, n, p) && n.Concept?)
      {
        var n := e.nodes[i];
        if n.Concept? {
          related := Put(related, n, i + 1, Bucket(related, n, i + 1) + {e});
        }
        i := i + 1;
      }
      IndexAdd(old(related), related, old(Contents), e);
      Contents := if HasConcept(e) then old(Contents) + {e} else old(Contents);
      return true;
    }

    /** removeEdge: take e out of the bucket of every concept node of e at
        that node's position; true when it was in one, that is, when it was
        indexed. */
    method RemoveEdge(e: Edge) returns (r: bool)
      requires Valid()
      modifies this
      ensures Valid()
      ensures Contents == old(Contents) - {e}
      ensures r == (e in old(Contents))
      ensures related.Keys == old(related).Keys
      ensures forall n :: n in related ==> related[n].Keys == old(related)[n].Keys
    {
      r := false;
      var i := 0;
      while i < |e.nodes|
        invariant 0 <= i <= |e.nodes|
        invariant forall n :: n in related ==> n.Concept?
        invariant related.Keys == old(related).Keys
        invariant forall n :: n in related ==> related[n].Keys == old(related)[n].Keys
        invariant forall n, p, x :: x in Bucket(related, n, p) <==>
          x in Bucket(old(related), n, p) && !(x == e && p <= i && At(e, n, p))
        invariant r ==> exists j :: 0 <= j < i && e.nodes[j].Concept? && e in Bucket(old(related), e.nodes[j], j + 1)
        invariant !r ==> forall j :: 0 <= j < i && e.nodes[j].Concept? ==> e !in Bucket(old(related), e.nodes[j], j + 1)
      {
        var hit := DropAt(e, i);
        r := r || hit;
        i := i + 1;
      }
      IndexRemove(old(related), related, old(Contents), e);
      IndexedIff(old(related), old(Contents), e);
      Contents := old(Contents) - {e};
    }

    /** One step of removeEdge: take e out of the bucket of its i-th node at
        position i + 1, saying whether it was there. Only an existing bucket
        is touched: no node map and no bucket is created. */
    method DropAt(e: Edge, i: nat) returns (hit: bool)
      requires i < |e.nodes| && forall n :: n in related ==> n.Concept?
      modifies this`related
      ensures forall n :: n in related ==> n.Concept?
      ensures forall n, p, x :: x in Bucket(related, n, p) <==>
        x in Bucket(old(related), n, p) && !(x == e && p == i + 1 && At(e, n, p))
      ensures hit <==> e.nodes[i].Concept? && e in Bucket(old(related), e.nodes[i], i + 1)
      ensures related.Keys == old(related).Keys
      ensures forall n :: n in related ==> related[n].Keys == old(related)[n].Keys
    {
      hit := false;
      var n := e.nodes[i];
      if n.Concept? && n in related && i + 1 in related[n] {
        var bucket := related[n][i + 1];
        hit := e in bucket;
        related := Put(related, n, i + 1, bucket - {e});
      }
    }

    /** clear: drop the whole index. */
    method Clear()
      modifies this
      ensures Valid() && Contents == {} && related == map[]
    {
      related := map[];
      Contents := {};
    }
  }
}
