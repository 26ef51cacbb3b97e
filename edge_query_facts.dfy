/** What a related-edge query means: the located collections are the
    constraints' declarative answers, the sort is an ordered permutation, and
    the fold computes the intersection of the additive answers minus the
    subtractive ones. */
module EdgeQueryFacts {
  import opened Base
  import opened EdgeQuery

  /** A located collection holds exactly the indexed edges satisfying its
      constraint; an unknown node or position gives the empty collection. */
  lemma LookupMeaning(idx: IndexMap, contents: set<Edge>, c: Constraint)
    requires IndexOf(idx, contents) && c.node.Concept?
    ensures forall e :: e in Lookup(idx, c.node, Key(c.sel)) <==> e in contents && Sat(e, c)
  {
    var n := c.node;
    forall e
      ensures e in Lookup(idx, n, Key(c.sel)) <==> e in contents && Sat(e, c)
    {
      match Key(c.sel)
      case None =>
        if e in Lookup(idx, n, None) {
          var p :| p in idx[n] && e in idx[n][p];
          assert e in Bucket(idx, n, p);
        }
        if e in contents && n in e.nodes {
          var i :| 0 <= i < |e.nodes| && e.nodes[i] == n;
          assert e in Bucket(idx, e.nodes[i], i + 1);
        }
      case Some(k) =>
        assert Lookup(idx, n, Some(k)) == Bucket(idx, n, k);
        if e in contents && At(e, n, k) {
          assert e in Bucket(idx, e.nodes[k - 1], (k - 1) + 1);
        }
    }
  }

  /** getEdges with a raw key: a negative key names no bucket, since
      positions start at 1. */
  lemma LookupRaw(idx: IndexMap, contents: set<Edge>, n: Node, key: Option<int>)
    requires IndexOf(idx, contents) && n.Concept?
    ensures forall e :: e in Lookup(idx, n, key) <==>
      (e in contents && match key case None => n in e.nodes case Some(k) => At(e, n, k))
  {
    if key.Some? && key.value < 0 {
      var k := key.value;
      assert Lookup(idx, n, key) == Bucket(idx, n, k);
      forall e ensures e in Bucket(idx, n, k) ==> At(e, n, k) { }
      assert Bucket(idx, n, k) == {};
    } else {
      assert Key(key) == key;
      LookupMeaning(idx, contents, Constraint(n, key));
    }
  }

  /** locateEdgeCollections yields one collection per concept constraint. */
  lemma {:induction false} LocateMembers(idx: IndexMap, cs: seq<Constraint>, col: EdgeCol)
    ensures col in Locate(idx, cs) <==> exists c :: c in cs && c.node.Concept? && col == ColOf(idx, c)
    decreases |cs|
  {
    if cs != [] {
      var init := cs[..|cs| - 1];
      LocateMembers(idx, init, col);
      assert cs == init + [cs[|cs| - 1]];
      if exists c :: c in cs && c.node.Concept? && col == ColOf(idx, c) {
        var c :| c in cs && c.node.Concept? && col == ColOf(idx, c);
        if c != cs[|cs| - 1] {
          assert c in init;
        }
      }
    }
  }

  /** Inserting into an ordered sequence keeps it ordered and adds x. */
  lemma {:induction false} InsertFacts(x: EdgeCol, s: seq<EdgeCol>)
    requires Ordered(s)
    ensures Ordered(Insert(x, s))
    ensures multiset(Insert(x, s)) == multiset(s) + multiset{x}
    decreases |s|
  {
    if s != [] && Compare(x, s[0]) > 0 {
      InsertFacts(x, s[1..]);
      assert s == [s[0]] + s[1..];
      var r := Insert(x, s);
      assert r == [s[0]] + Insert(x, s[1..]);
      forall i, j | 0 <= i < j < |r| ensures Before(r[i], r[j]) {
        if i == 0 {
          assert r[j] in multiset(Insert(x, s[1..]));
          assert r[j] in Insert(x, s[1..]);
          assert r[j] == x || r[j] in s[1..];
        }
      }
    }
  }

  /** The sort returns an ordered permutation of its input. */
  lemma {:induction false} SortFacts(s: seq<EdgeCol>)
    ensures Ordered(Sort(s))
    ensures multiset(Sort(s)) == multiset(s)
    decreases |s|
  {
    if s != [] {
      SortFacts(s[1..]);
      InsertFacts(s[0], Sort(s[1..]));
      assert s == [s[0]] + s[1..];
    }
  }

  /** Sorting neither adds nor drops a collection. */
  lemma SortMembers(s: seq<EdgeCol>)
    ensures forall col :: col in Sort(s) <==> col in s
  {
    SortFacts(s);
    forall col ensures col in Sort(s) <==> col in s {
      assert col in Sort(s) <==> col in multiset(Sort(s));
      assert col in s <==> col in multiset(s);
    }
  }

  /** The fold keeps what every later additive collection holds and no later
      subtractive collection holds. */
  lemma {:induction false} FoldMeaning(acc: set<Edge>, rest: seq<EdgeCol>, e: Edge)
    ensures e in FoldFrom(acc, rest) <==>
      e in acc
      && (forall c :: c in rest && c.additive ==> e in c.edges)
      && (forall c :: c in rest && !c.additive ==> e !in c.edges)
    decreases |rest|
  {
    if rest != [] {
      var next := if rest[0].additive then acc * rest[0].edges else acc - rest[0].edges;
      FoldMeaning(next, rest[1..], e);
      assert rest == [rest[0]] + rest[1..];
      forall c | c in rest ensures c == rest[0] || c in rest[1..] { }
    }
  }

  /** Once the running result is empty it stays empty, which is why the loop
      may return at that point. */
  lemma {:induction false} FoldFromEmpty(rest: seq<EdgeCol>)
    ensures FoldFrom({}, rest) == {}
    decreases |rest|
  {
    if rest != [] {
      var next: set<Edge> := if rest[0].additive then {} * rest[0].edges else {} - rest[0].edges;
      assert next == {};
      FoldFromEmpty(rest[1..]);
    }
  }

  /** In an ordered sequence holding an additive collection, the first
      collection is additive. */
  lemma FirstIsAdditive(s: seq<EdgeCol>, c: EdgeCol)
    requires Ordered(s) && c in s && c.additive
    ensures s[0].additive
  {
    var j :| 0 <= j < |s| && s[j] == c;
    if j > 0 {
      assert Before(s[0], s[j]);
    }
  }

  /** Folding an ordered sequence whose first collection is additive keeps
      what every additive collection holds and no subtractive one holds. */
  lemma FoldAll(s: seq<EdgeCol>, e: Edge)
    requires |s| > 0 && s[0].additive
    ensures e in FoldFrom(s[0].edges, s[1..]) <==>
      (forall col :: col in s && col.additive ==> e in col.edges)
      && (forall col :: col in s && !col.additive ==> e !in col.edges)
  {
    FoldMeaning(s[0].edges, s[1..], e);
    assert s == [s[0]] + s[1..];
    forall col | col in s ensures col == s[0] || col in s[1..] { }
  }

  /** The additive located collections hold e exactly when e meets every
      additive concept constraint. */
  lemma AdditiveCols(idx: IndexMap, contents: set<Edge>, cs: seq<Constraint>, e: Edge)
    requires IndexOf(idx, contents)
    ensures (forall col :: col in Locate(idx, cs) && col.additive ==> e in col.edges) <==>
      (forall c :: c in cs && c.node.Concept? && Additive(c.sel) ==> e in contents && Sat(e, c))
  {
    if forall col :: col in Locate(idx, cs) && col.additive ==> e in col.edges {
      forall c | c in cs && c.node.Concept? && Additive(c.sel) ensures e in contents && Sat(e, c) {
        LocateMembers(idx, cs, ColOf(idx, c));
        LookupMeaning(idx, contents, c);
      }
    }
    if forall c :: c in cs && c.node.Concept? && Additive(c.sel) ==> e in contents && Sat(e, c) {
      forall col | col in Locate(idx, cs) && col.additive ensures e in col.edges {
        LocateMembers(idx, cs, col);
        var c :| c in cs && c.node.Concept? && col == ColOf(idx, c);
        LookupMeaning(idx, contents, c);
      }
    }
  }

  /** The subtractive located collections miss e exactly when e meets no
      subtractive concept constraint. */
  lemma SubtractiveCols(idx: IndexMap, contents: set<Edge>, cs: seq<Constraint>, e: Edge)
    requires IndexOf(idx, contents)
    ensures (forall col :: col in Locate(idx, cs) && !col.additive ==> e !in col.edges) <==>
      (forall c :: c in cs && c.node.Concept? && !Additive(c.sel) ==> !(e in contents && Sat(e, c)))
  {
    if forall col :: col in Locate(idx, cs) && !col.additive ==> e !in col.edges {
      forall c | c in cs && c.node.Concept? && !Additive(c.sel) ensures !(e in contents && Sat(e, c)) {
        LocateMembers(idx, cs, ColOf(idx, c));
        LookupMeaning(idx, contents, c);
      }
    }
    if forall c :: c in cs && c.node.Concept? && !Additive(c.sel) ==> !(e in contents && Sat(e, c)) {
      forall col | col in Locate(idx, cs) && !col.additive ensures e !in col.edges {
        LocateMembers(idx, cs, col);
        var c :| c in cs && c.node.Concept? && col == ColOf(idx, c);
        LookupMeaning(idx, contents, c);
      }
    }
  }

  /** The concept part of a query with at least one additive concept
      constraint: the indexed edges meeting every additive constraint and no
      subtractive one. */
  lemma CandidatesMeaning(idx: IndexMap, contents: set<Edge>, cs: seq<Constraint>)
    requires IndexOf(idx, contents) && HasAdditiveConcept(cs)
    ensures Fold(Sort(Locate(idx, cs))) == Some(Answer(contents, cs))
  {
    var cols := Locate(idx, cs);
    var sorted := Sort(cols);
    SortFacts(cols);
    SortMembers(cols);
    var a :| a in cs && a.node.Concept? && Additive(a.sel);
    LocateMembers(idx, cs, ColOf(idx, a));
    FirstIsAdditive(sorted, ColOf(idx, a));
    var result := FoldFrom(sorted[0].edges, sorted[1..]);
    forall e ensures e in result <==> e in Answer(contents, cs) {
      FoldAll(sorted, e);
      AdditiveCols(idx, contents, cs, e);
      SubtractiveCols(idx, contents, cs, e);
    }
    assert result == Answer(contents, cs);
  }

  /** execute with at least one additive concept constraint: the declarative
      answer, then the non-concept post-filter. */
  lemma ExecuteMeaning(idx: IndexMap, contents: set<Edge>, args: seq<Arg>, cs: seq<Constraint>)
    requires IndexOf(idx, contents) && Parse(args) == Ok(cs) && HasAdditiveConcept(cs)
    ensures Execute(idx, args) == Filter(Some(Answer(contents, cs)), cs)
  {
    CandidatesMeaning(idx, contents, cs);
  }

  /** With no concept constraint there is nothing to seed the result, and the
      answer is null (not the whole edge table). */
  lemma {:induction false} ExecuteWithoutConcepts(idx: IndexMap, args: seq<Arg>, cs: seq<Constraint>)
    requires Parse(args) == Ok(cs) && forall c :: c in cs ==> !c.node.Concept?
    ensures Execute(idx, args) == Ok(None)
  {
    LocateEmpty(idx, cs);
  }

  lemma {:induction false} LocateEmpty(idx: IndexMap, cs: seq<Constraint>)
    requires forall c :: c in cs ==> !c.node.Concept?
    ensures Locate(idx, cs) == []
    decreases |cs|
  {
    if cs != [] {
      assert cs[|cs| - 1] in cs;
      LocateEmpty(idx, cs[..|cs| - 1]);
    }
  }

  /** With concept constraints that are all subtractive, the smallest of their
      collections seeds the result and the others are removed from it. */
  lemma AllSubtractive(idx: IndexMap, args: seq<Arg>, cs: seq<Constraint>)
    requires Parse(args) == Ok(cs)
    requires exists c :: c in cs && c.node.Concept?
    requires forall c :: c in cs && c.node.Concept? ==> !Additive(c.sel)
    ensures var sorted := Sort(Locate(idx, cs));
      && |sorted| > 0
      && sorted[0] in Locate(idx, cs) && !sorted[0].additive
      && (forall col :: col in Locate(idx, cs) ==> |sorted[0].edges| <= |col.edges|)
      && Execute(idx, args)
         == Filter(Some(set e | e in sorted[0].edges && forall col :: col in sorted[1..] ==> e !in col.edges), cs)
  {
    var cols := Locate(idx, cs);
    var sorted := Sort(cols);
    var c :| c in cs && c.node.Concept?;
    LocateMembers(idx, cs, ColOf(idx, c));
    SortMembers(cols);
    SortFacts(cols);
    assert |sorted| > 0 && sorted[0] in cols;
    forall col | col in cols ensures !col.additive {
      LocateMembers(idx, cs, col);
    }
    SmallestFirst(sorted);
    var expected := set e | e in sorted[0].edges && forall col :: col in sorted[1..] ==> e !in col.edges;
    SubtractiveFold(sorted[0].edges, sorted[1..]);
  }

  /** The first element of an ordered sequence of same-kind collections is a
      smallest one. */
  lemma SmallestFirst(s: seq<EdgeCol>)
    requires |s| > 0 && forall col :: col in s ==> !col.additive
    requires Ordered(s)
    ensures forall col :: col in s ==> |s[0].edges| <= |col.edges|
  {
    forall col | col in s ensures |s[0].edges| <= |col.edges| {
      var j :| 0 <= j < |s| && s[j] == col;
      if j > 0 { assert Before(s[0], s[j]); }
    }
  }

  /** Folding only subtractive collections removes each of them. */
  lemma SubtractiveFold(acc: set<Edge>, rest: seq<EdgeCol>)
    requires forall col :: col in rest ==> !col.additive
    ensures FoldFrom(acc, rest) == set e | e in acc && forall col :: col in rest ==> e !in col.edges
  {
    forall e ensures e in FoldFrom(acc, rest) <==> (e in acc && forall col :: col in rest ==> e !in col.edges) {
      FoldMeaning(acc, rest, e);
    }
  }

  /** execute(n): every indexed edge holding n anywhere, the union of all of
      n's buckets. */
  lemma SingleNodeQuery(idx: IndexMap, contents: set<Edge>, n: Node)
    requires IndexOf(idx, contents) && n.Concept?
    ensures Execute(idx, [NodeArg(n)]) == Ok(Some(set e | e in contents && n in e.nodes))
  {
    var cs := [Constraint(n, None)];
    assert Parse([NodeArg(n)]) == Ok(cs) by {
      assert [NodeArg(n)][1..] == [];
      assert Parse([]) == Ok([]);
      assert [Constraint(n, None)] + [] == cs;
    }
    assert cs[0] in cs;
    ExecuteMeaning(idx, contents, [NodeArg(n)], cs);
    assert NonConcepts(cs) == [] by {
      assert cs[..0] == [];
    }
    assert Answer(contents, cs) == set e | e in contents && n in e.nodes;
  }

  /** execute(n, p) with p > 0: the indexed edges holding n at position p. */
  lemma PositionalQuery(idx: IndexMap, contents: set<Edge>, n: Node, p: int)
    requires IndexOf(idx, contents) && n.Concept? && p > 0
    ensures Execute(idx, [NodeArg(n), PosArg(p)]) == Ok(Some(set e | e in contents && At(e, n, p)))
  {
    var cs := [Constraint(n, Some(p))];
    assert Parse([NodeArg(n), PosArg(p)]) == Ok(cs) by {
      var args := [NodeArg(n), PosArg(p)];
      assert |args| > 1 && args[1].PosArg?;
      assert args[2..] == [];
      assert Parse([]) == Ok([]);
      assert [Constraint(n, Some(p))] + [] == cs;
    }
    assert cs[0] in cs;
    ExecuteMeaning(idx, contents, [NodeArg(n), PosArg(p)], cs);
    assert NonConcepts(cs) == [] by {
      assert cs[..0] == [];
    }
    assert Answer(contents, cs) == set e | e in contents && At(e, n, p);
  }

  /** An edge passes the post-filter exactly when it meets every non-concept
      constraint. */
  lemma {:induction false} CheckEdgeMeaning(e: Edge, ps: seq<NonConcept>)
    ensures CheckEdge(e, ps) == Pass <==> forall k :: 0 <= k < |ps| ==> Matches(e, ps[k])
    decreases |ps|
  {
    if ps != [] {
      CheckEdgeMeaning(e, ps[1..]);
      if forall k :: 0 <= k < |ps[1..]| ==> Matches(e, ps[1..][k]) {
        if Matches(e, ps[0]) {
          forall k | 0 <= k < |ps| ensures Matches(e, ps[k]) {
            if k > 0 { assert ps[k] == ps[1..][k - 1]; }
          }
        }
      } else {
        var k :| 0 <= k < |ps[1..]| && !Matches(e, ps[1..][k]);
        assert ps[1..][k] == ps[k + 1];
      }
    }
  }

  /** The post-filter throws only on an index outside the edge's nodes. */
  lemma {:induction false} CheckEdgeThrows(e: Edge, ps: seq<NonConcept>)
    requires CheckEdge(e, ps) == Throw
    ensures exists k :: 0 <= k < |ps| && ps[k].index != -1 && !(0 <= ps[k].index < |e.nodes|)
    decreases |ps|
  {
    if ps[0].index == -1 || 0 <= ps[0].index < |e.nodes| {
      CheckEdgeThrows(e, ps[1..]);
      var k :| 0 <= k < |ps[1..]| && ps[1..][k].index != -1 && !(0 <= ps[1..][k].index < |e.nodes|);
      assert ps[k + 1] == ps[1..][k];
    }
  }

  // ---------------------------------------------------------------------
  // Keeping the index in step with its edges

  /** Adding e to the bucket of each of its concept nodes at that node's
      position indexes e as well, when it has a concept node. */
  lemma IndexAdd(idx0: IndexMap, idx1: IndexMap, contents: set<Edge>, e: Edge)
    requires IndexOf(idx0, contents)
    requires forall n :: n in idx1 ==> n.Concept?
    requires forall n, p, x :: x in Bucket(idx1, n, p) <==>
      x in Bucket(idx0, n, p) || (x == e && At(e, n, p) && n.Concept?)
    ensures IndexOf(idx1, if HasConcept(e) then contents + {e} else contents)
  {
    var c := if HasConcept(e) then contents + {e} else contents;
    forall n, p, x | x in Bucket(idx1, n, p)
      ensures x in c && n.Concept? && At(x, n, p)
    {
      if x !in Bucket(idx0, n, p) {
        assert e.nodes[p - 1].Concept?;
      }
    }
    forall x, i | x in c && 0 <= i < |x.nodes| && x.nodes[i].Concept?
      ensures x in Bucket(idx1, x.nodes[i], i + 1)
    {
      if x == e {
        assert At(e, e.nodes[i], i + 1);
      }
    }
  }

  /** Taking e out of every bucket that holds it at its own position leaves
      the index of the other edges. */
  lemma IndexRemove(idx0: IndexMap, idx1: IndexMap, contents: set<Edge>, e: Edge)
    requires IndexOf(idx0, contents)
    requires forall n :: n in idx1 ==> n.Concept?
    requires forall n, p, x :: x in Bucket(idx1, n, p) <==>
      x in Bucket(idx0, n, p) && !(x == e && At(e, n, p))
    ensures IndexOf(idx1, contents - {e})
  {
  }

  /** An edge is indexed exactly when one of its concept nodes' buckets at its
      position holds it. */
  lemma IndexedIff(idx: IndexMap, contents: set<Edge>, e: Edge)
    requires IndexOf(idx, contents)
    ensures e in contents <==>
      exists j :: 0 <= j < |e.nodes| && e.nodes[j].Concept? && e in Bucket(idx, e.nodes[j], j + 1)
  {
    if e in contents {
      var j :| 0 <= j < |e.nodes| && e.nodes[j].Concept?;
      assert e in Bucket(idx, e.nodes[j], j + 1);
    }
  }

  // ---------------------------------------------------------------------
  // Reading the arguments one step at a time

  /** One step of reading the arguments from index i: the node there, with
      the integer after it as its selector when there is one. */
  lemma ParseStep(args: seq<Arg>, i: nat)
    requires i < |args| && args[i].NodeArg?
    ensures var hasSel := i < |args| - 1 && args[i + 1].PosArg?;
      Parse(args[i..]) ==
        Prepend([Constraint(args[i].node, if hasSel then Some(args[i + 1].pos) else None)],
                Parse(args[(if hasSel then i + 2 else i + 1)..]))
  {
    assert args[i..][1..] == args[i + 1..];
    if i < |args| - 1 {
      assert args[i..][2..] == args[i + 2..];
    }
  }

  /** Reading stops at an integer where a node is expected. */
  lemma ParseCastFails(args: seq<Arg>, i: nat)
    requires i < |args| && args[i].PosArg?
    ensures Parse(args[i..]) == Err(ClassCast)
  {
  }

  lemma PrependEmpty(args: seq<Arg>)
    ensures Parse(args) == Prepend([], Parse(args[0..]))
  {
    assert args[0..] == args;
    if Parse(args).Ok? {
      assert [] + Parse(args).value == Parse(args).value;
    }
  }

  lemma PrependAssoc(a: seq<Constraint>, b: seq<Constraint>, r: Result<seq<Constraint>>)
    ensures Prepend(a, Prepend(b, r)) == Prepend(a + b, r)
  {
    if r.Ok? {
      assert a + (b + r.value) == (a + b) + r.value;
    }
  }

  /** Locating after one more constraint appends at most one collection. */
  lemma LocateSnoc(idx: IndexMap, cs: seq<Constraint>, c: Constraint)
    ensures Locate(idx, cs + [c]) == Locate(idx, cs) + (if c.node.Concept? then [ColOf(idx, c)] else [])
  {
    assert (cs + [c])[..|cs|] == cs;
  }

  /** Reading one more constraint appends at most one non-concept check. */
  lemma NonConceptsSnoc(cs: seq<Constraint>, c: Constraint)
    ensures NonConcepts(cs + [c])
      == NonConcepts(cs) + (if !c.node.Concept? then [NonConcept(c.node, IndexOfSel(c.sel))] else [])
  {
    assert (cs + [c])[..|cs|] == cs;
  }

  /** The post-filter of an empty candidate set is empty, so execute may
      return as soon as the running result is empty. */
  lemma FilterEmpty(cs: seq<Constraint>)
    ensures Filter(Some({}), cs) == Ok(Some({}))
  {
    var ps := NonConcepts(cs);
    var cand: Option<set<Edge>> := Some({});
    if ps != [] {
      assert !exists e :: e in cand.value && CheckEdge(e, ps) == Throw;
      assert (set e | e in cand.value && CheckEdge(e, ps) == Pass) == {};
    }
  }

  // ---------------------------------------------------------------------
  // findEdgeByNodes

  /** asIndexed(nodes) reads back as one positional constraint per node. */
  lemma {:induction false} ParseIndexed(nodes: seq<Node>, k: nat)
    ensures Parse(IndexedFrom(nodes, k)) == Ok(PositionalFrom(nodes, k))
    decreases |nodes|
  {
    if nodes != [] {
      var args := IndexedFrom(nodes, k);
      ParseIndexed(nodes[1..], k + 1);
      assert args[2..] == IndexedFrom(nodes[1..], k + 1);
    }
  }

  /** Element i of asIndexed(nodes) from offset k. */
  lemma {:induction false} IndexedAt(nodes: seq<Node>, k: nat, i: nat)
    requires i < |nodes|
    ensures |IndexedFrom(nodes, k)| == 2 * |nodes|
    ensures IndexedFrom(nodes, k)[2 * i] == NodeArg(nodes[i])
    ensures IndexedFrom(nodes, k)[2 * i + 1] == PosArg(k + i + 1)
    decreases |nodes|
  {
    if i > 0 {
      IndexedAt(nodes[1..], k + 1, i - 1);
    } else if |nodes| > 1 {
      IndexedAt(nodes[1..], k + 1, 0);
    }
  }

  lemma {:induction false} IndexedLength(nodes: seq<Node>, k: nat)
    ensures |IndexedFrom(nodes, k)| == 2 * |nodes|
    decreases |nodes|
  {
    if nodes != [] { IndexedLength(nodes[1..], k + 1); }
  }

  /** Element i of the positional constraints from offset k. */
  lemma {:induction false} PositionalAt(nodes: seq<Node>, k: nat)
    ensures |PositionalFrom(nodes, k)| == |nodes|
    ensures forall i :: 0 <= i < |nodes| ==> PositionalFrom(nodes, k)[i] == Constraint(nodes[i], Some(k + i + 1))
    decreases |nodes|
  {
    if nodes != [] {
      PositionalAt(nodes[1..], k + 1);
      var s := PositionalFrom(nodes, k);
      forall i | 0 < i < |nodes| ensures s[i] == Constraint(nodes[i], Some(k + i + 1)) {
        assert s[i] == PositionalFrom(nodes[1..], k + 1)[i - 1];
      }
    }
  }

  /** The positional constraints are exactly (nodes[i], i + k + 1). */
  lemma PositionalMembers(nodes: seq<Node>, k: nat, c: Constraint)
    ensures c in PositionalFrom(nodes, k) <==>
      exists i :: 0 <= i < |nodes| && c == Constraint(nodes[i], Some(k + i + 1))
  {
    PositionalAt(nodes, k);
    var s := PositionalFrom(nodes, k);
    if c in s {
      var i :| 0 <= i < |s| && s[i] == c;
      assert c == Constraint(nodes[i], Some(k + i + 1));
    }
    if exists i :: 0 <= i < |nodes| && c == Constraint(nodes[i], Some(k + i + 1)) {
      var i :| 0 <= i < |nodes| && c == Constraint(nodes[i], Some(k + i + 1));
      assert s[i] == c;
    }
  }

  /** The corrected findEdgeByNodes finds exactly the indexed edges whose node
      sequence is the given one, when that sequence holds a concept node. */
  lemma FindByNodesMeaning(idx: IndexMap, contents: set<Edge>, nodes: seq<Node>)
    requires IndexOf(idx, contents)
    requires exists i :: 0 <= i < |nodes| && nodes[i].Concept?
    ensures FindByNodes(idx, nodes) == Some(set e | e in contents && e.nodes == nodes)
  {
    var cs := PositionalFrom(nodes, 0);
    var i :| 0 <= i < |nodes| && nodes[i].Concept?;
    PositionalMembers(nodes, 0, Constraint(nodes[i], Some(i + 1)));
    assert HasAdditiveConcept(cs);
    CandidatesMeaning(idx, contents, cs);
    var ans := Answer(contents, cs);
    forall e ensures (e in ans && e.nodes == nodes) <==> (e in contents && e.nodes == nodes) {
      if e in contents && e.nodes == nodes {
        forall c | c in cs && c.node.Concept? ensures Additive(c.sel) && Sat(e, c) {
          PositionalMembers(nodes, 0, c);
        }
      }
    }
    assert (set e | e in ans && e.nodes == nodes) == (set e | e in contents && e.nodes == nodes);
  }

  /** With no concept node the corrected search has no candidates (null). */
  lemma FindByNodesWithoutConcepts(idx: IndexMap, nodes: seq<Node>)
    requires forall i :: 0 <= i < |nodes| ==> !nodes[i].Concept?
    ensures FindByNodes(idx, nodes) == None
  {
    var cs := PositionalFrom(nodes, 0);
    forall c | c in cs ensures !c.node.Concept? {
      PositionalMembers(nodes, 0, c);
    }
    LocateEmpty(idx, cs);
  }

  // ---------------------------------------------------------------------
  // The as-written search does not check arity

  const Isa: Node := Concept(0, "isa")
  const Cow: Node := Concept(1, "cow")
  const Mammal: Node := Concept(2, "mammal")
  const X: Node := Str("x")

  /** The edge (isa, cow, mammal) and its index. */
  const Triple: Edge := Edge(0, [Isa, Cow, Mammal])
  const TripleIdx: IndexMap := map[Isa := map[1 := {Triple}], Cow := map[2 := {Triple}], Mammal := map[3 := {Triple}]]

  /** The edge (isa, cow) and its index. */
  const Pair: Edge := Edge(0, [Isa, Cow])
  const PairIdx: IndexMap := map[Isa := map[1 := {Pair}], Cow := map[2 := {Pair}]]

  lemma TripleIndexed()
    ensures IndexOf(TripleIdx, {Triple})
  {
    forall n, p, e | e in Bucket(TripleIdx, n, p) ensures e == Triple && n.Concept? && At(e, n, p) {
      assert n == Isa || n == Cow || n == Mammal;
    }
    forall i | 0 <= i < |Triple.nodes| ensures Triple in Bucket(TripleIdx, Triple.nodes[i], i + 1) {
      assert i == 0 || i == 1 || i == 2;
    }
    assert HasConcept(Triple) by { assert Triple.nodes[0].Concept?; }
  }

  lemma PairIndexed()
    ensures IndexOf(PairIdx, {Pair})
  {
    forall n, p, e | e in Bucket(PairIdx, n, p) ensures e == Pair && n.Concept? && At(e, n, p) {
      assert n == Isa || n == Cow;
    }
    forall i | 0 <= i < |Pair.nodes| ensures Pair in Bucket(PairIdx, Pair.nodes[i], i + 1) {
      assert i == 0 || i == 1;
    }
    assert HasConcept(Pair) by { assert Pair.nodes[0].Concept?; }
  }

  /** The constraints of a search for (isa, cow) and for (isa, cow, "x"). */
  lemma SearchConstraints()
    ensures PositionalFrom([Isa, Cow], 0) == [Constraint(Isa, Some(1)), Constraint(Cow, Some(2))]
    ensures PositionalFrom([Isa, Cow, X], 0)
      == [Constraint(Isa, Some(1)), Constraint(Cow, Some(2)), Constraint(X, Some(3))]
  {
    PositionalAt([Isa, Cow], 0);
    PositionalAt([Isa, Cow, X], 0);
  }

  /** Where (isa, 1) and (cow, 2) both index exactly e, both searches locate
      {e} twice, and only the longer one has a non-concept constraint. */
  lemma LocateIsaCow(idx: IndexMap, e: Edge)
    requires Isa in idx && 1 in idx[Isa] && idx[Isa][1] == {e}
    requires Cow in idx && 2 in idx[Cow] && idx[Cow][2] == {e}
    ensures var cs2 := [Constraint(Isa, Some(1)), Constraint(Cow, Some(2))];
      var cs3 := cs2 + [Constraint(X, Some(3))];
      && Locate(idx, cs2) == [EdgeCol(true, {e}), EdgeCol(true, {e})]
      && Locate(idx, cs3) == [EdgeCol(true, {e}), EdgeCol(true, {e})]
      && NonConcepts(cs2) == []
      && NonConcepts(cs3) == [NonConcept(X, 2)]
  {
    var cs2 := [Constraint(Isa, Some(1)), Constraint(Cow, Some(2))];
    var cs3 := cs2 + [Constraint(X, Some(3))];
    var col := EdgeCol(true, {e});
    assert cs2[..1] == [Constraint(Isa, Some(1))];
    assert cs2[..1][..0] == [];
    assert cs3[..2] == cs2;
    assert ColOf(idx, cs2[0]) == col && ColOf(idx, cs2[1]) == col;
    assert Locate(idx, cs2[..1]) == [col];
    assert NonConcepts(cs2[..1]) == [];
  }

  /** Two equal additive collections fold to their edges. */
  lemma FoldPair(col: EdgeCol)
    requires col.additive
    ensures Fold(Sort([col, col])) == Some(col.edges)
  {
    assert [col, col][1..] == [col] && [col][1..] == [];
    assert Sort([col]) == [col];
    assert Sort([col, col]) == [col, col];
    assert FoldFrom(col.edges, [col]) == FoldFrom(col.edges * col.edges, []);
    assert col.edges * col.edges == col.edges;
  }

  /** As written, searching for (isa, cow) finds the edge (isa, cow, mammal);
      the corrected search finds nothing. */
  lemma PrefixEdgeMatches()
    ensures IndexOf(TripleIdx, {Triple})
    ensures FindByNodesAsWritten(TripleIdx, [Isa, Cow]) == Ok(Some({Triple}))
    ensures Triple.nodes != [Isa, Cow]
    ensures FindByNodes(TripleIdx, [Isa, Cow]) == Some({})
  {
    TripleIndexed();
    ParseIndexed([Isa, Cow], 0);
    SearchConstraints();
    LocateIsaCow(TripleIdx, Triple);
    FoldPair(EdgeCol(true, {Triple}));
    assert Triple.nodes[2] == Mammal;
    FindByNodesMeaning(TripleIdx, {Triple}, [Isa, Cow]);
    var found := FindByNodes(TripleIdx, [Isa, Cow]).value;
    assert Triple !in found;
    assert found == {};
  }

  /** As written, searching for (isa, cow, "x") when (isa, cow) is indexed
      reads past the end of that edge's node array; the corrected search finds
      nothing. */
  lemma ShorterEdgeThrows()
    ensures IndexOf(PairIdx, {Pair})
    ensures FindByNodesAsWritten(PairIdx, [Isa, Cow, X]) == Err(IndexOutOfBounds)
    ensures FindByNodes(PairIdx, [Isa, Cow, X]) == Some({})
  {
    PairIndexed();
    ParseIndexed([Isa, Cow, X], 0);
    SearchConstraints();
    LocateIsaCow(PairIdx, Pair);
    FoldPair(EdgeCol(true, {Pair}));
    var cs2 := [Constraint(Isa, Some(1)), Constraint(Cow, Some(2))];
    assert cs2 + [Constraint(X, Some(3))] == PositionalFrom([Isa, Cow, X], 0);
    var ps := [NonConcept(X, 2)];
    assert CheckEdge(Pair, ps) == Throw;
    FindByNodesMeaning(PairIdx, {Pair}, [Isa, Cow, X]);
    var found := FindByNodes(PairIdx, [Isa, Cow, X]).value;
    assert Pair.nodes != [Isa, Cow, X];
    assert Pair !in found;
    assert found == {};
  }
}
