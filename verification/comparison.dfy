/** Comparing two graphs: the chain of equality tests (same entities, same
    topology, same relations per pair, same edge data) and the set
    operations on their connected pairs; also the per-function node counts
    and per-relation edge counts that go with them. The functions of
    `comparison`, `graph_operations` and `graph_diff` share these
    definitions. */
module Comparison {
  import opened Wrappers
  import opened Seqs
  import opened BelGraph

  type Pair = (Node, Node)

  /** `set(g.edges())`: the connected ordered pairs, keys and data dropped. */
  function Pairs(g: Graph): set<Pair> {
    set e | e in g.edges :: (e.u, e.v)
  }

  /** `graph_entities_equal(g, h)` */
  predicate EntitiesEqual(g: Graph, h: Graph) {
    g.attrs.Keys == h.attrs.Keys
  }

  /** `graph_edges_equal(g, h)`: only the pairs are compared; neither keys
      nor data take part. */
  predicate EdgesEqual(g: Graph, h: Graph) {
    Pairs(g) == Pairs(h)
  }

  /** `graph_topologically_equal(g, h)` */
  predicate TopologicallyEqual(g: Graph, h: Graph) {
    EntitiesEqual(g, h) && Pairs(g) == Pairs(h)
  }

  lemma TopologicallyEqualSpec(g: Graph, h: Graph, p: Pair)
    requires TopologicallyEqual(g, h)
    ensures EntitiesEqual(g, h) && EdgesEqual(g, h)
    ensures (exists e :: e in g.edges && (e.u, e.v) == p) <==> (exists e :: e in h.edges && (e.u, e.v) == p)
  {
    if exists e :: e in g.edges && (e.u, e.v) == p {
      var e :| e in g.edges && (e.u, e.v) == p;
      assert p in Pairs(h);
    }
    if exists e :: e in h.edges && (e.u, e.v) == p {
      var e :| e in h.edges && (e.u, e.v) == p;
      assert p in Pairs(g);
    }
  }

  // ---------------------------------------------------------------------
  // Relations per pair

  /** Some edge of `es` joins the pair `p` with relation `rel`. */
  ghost predicate RelatedBy(es: seq<Edge>, p: Pair, rel: Value) {
    exists e :: e in es && (e.u, e.v) == p && RELATION in e.data && e.data[RELATION] == rel
  }

  /** `graph_content_transform(g)` over the edges `es`: each connected pair
      with the set of relations on its edges. Reading `d[RELATION]` raises
      `KeyError` on an edge without one. */
  function Transform(es: seq<Edge>): (r: Result<map<Pair, set<Value>>, Error>)
    ensures r.Success? <==> forall e :: e in es ==> RELATION in e.data
    ensures r.Failure? ==> r.error == KeyError(RELATION)
  {
    if |es| == 0 then Success(map[])
    else
      var front := es[..|es| - 1];
      var e := es[|es| - 1];
      assert forall f :: f in es <==> f in front || f == e;
      var m :- Transform(front);
      if RELATION !in e.data then Failure(KeyError(RELATION))
      else
        var p := (e.u, e.v);
        Success(m[p := At(m, p) + {e.data[RELATION]}])
  }

  /** A `defaultdict(set)` lookup: a missing pair reads as the empty set. */
  function At(m: map<Pair, set<Value>>, p: Pair): set<Value> {
    if p in m then m[p] else {}
  }

  /** The transform has an entry for every connected pair and no other,
      holding exactly the relations of that pair's edges. */
  lemma {:induction false} TransformSpec(es: seq<Edge>, p: Pair, rel: Value)
    requires Transform(es).Success?
    ensures p in Transform(es).value <==> exists e :: e in es && (e.u, e.v) == p
    ensures rel in At(Transform(es).value, p) <==> RelatedBy(es, p, rel)
  {
    if |es| > 0 {
      var front := es[..|es| - 1];
      var e := es[|es| - 1];
      assert forall f :: f in es <==> f in front || f == e;
      TransformSpec(front, p, rel);
      if RelatedBy(front, p, rel) {
        var f :| f in front && (f.u, f.v) == p && RELATION in f.data && f.data[RELATION] == rel;
        assert f in es;
      }
      if exists f :: f in front && (f.u, f.v) == p {
        var f :| f in front && (f.u, f.v) == p;
        assert f in es;
      }
    }
  }

  /** `graph_relations_equal(g, h)`: topologically equal, and every pair of
      `g` has the same relation set in both graphs. */
  function RelationsEqual(g: Graph, h: Graph): (r: Result<bool, Error>)
    ensures r.Failure? ==> r.error == KeyError(RELATION)
  {
    if !TopologicallyEqual(g, h) then Success(false)
    else
      var gt :- Transform(g.edges);
      var ht :- Transform(h.edges);
      Success(forall e :: e in g.edges ==> At(gt, (e.u, e.v)) == At(ht, (e.u, e.v)))
  }

  /** Every edge has a relation. */
  predicate AllRelated(g: Graph) {
    forall e :: e in g.edges ==> RELATION in e.data
  }

  /** It fails exactly when the graphs are topologically equal and an edge
      of either lacks a relation; it holds exactly when, besides, every
      pair carries the same relations in both. */
  lemma RelationsEqualSpec(g: Graph, h: Graph)
    ensures RelationsEqual(g, h).Failure? <==> TopologicallyEqual(g, h) && !(AllRelated(g) && AllRelated(h))
    ensures RelationsEqual(g, h) == Success(true) <==>
      && TopologicallyEqual(g, h) && AllRelated(g) && AllRelated(h)
      && forall p, rel :: p in Pairs(g) ==> (RelatedBy(g.edges, p, rel) <==> RelatedBy(h.edges, p, rel))
  {
    if TopologicallyEqual(g, h) && AllRelated(g) && AllRelated(h) {
      var gt := Transform(g.edges).value;
      var ht := Transform(h.edges).value;
      var same := forall e :: e in g.edges ==> At(gt, (e.u, e.v)) == At(ht, (e.u, e.v));
      assert RelationsEqual(g, h) == Success(same);
      if same {
        forall p, rel | p in Pairs(g)
          ensures RelatedBy(g.edges, p, rel) <==> RelatedBy(h.edges, p, rel)
        {
          var e :| e in g.edges && (e.u, e.v) == p;
          TransformSpec(g.edges, p, rel);
          TransformSpec(h.edges, p, rel);
        }
      } else {
        var e :| e in g.edges && At(gt, (e.u, e.v)) != At(ht, (e.u, e.v));
        var p := (e.u, e.v);
        var rel :| rel in At(gt, p) <==> rel !in At(ht, p);
        TransformSpec(g.edges, p, rel);
        TransformSpec(h.edges, p, rel);
        assert p in Pairs(g);
      }
    }
  }

  /** Whether two graphs have the same relations does not depend on the
      order they are given in. */
  lemma RelationsEqualSymmetric(g: Graph, h: Graph)
    ensures RelationsEqual(g, h) == RelationsEqual(h, g)
  {
    RelationsEqualSpec(g, h);
    RelationsEqualSpec(h, g);
  }

  // ---------------------------------------------------------------------
  // Edge data per pair

  /** `g.edge[u][v].values()`: the data of the `u -> v` edges, in order. */
  function PairData(es: seq<Edge>, u: Node, v: Node): (r: seq<Attrs>)
    ensures |r| <= |es|
  {
    if |es| == 0 then []
    else
      var front := PairData(es[..|es| - 1], u, v);
      var e := es[|es| - 1];
      if e.u == u && e.v == v then front + [e.data] else front
  }

  /** How many elements of `ys` equal `x`. */
  function CountEqual(ys: seq<Attrs>, x: Attrs): (n: nat)
    ensures n <= |ys|
    ensures n == multiset(ys)[x]
  {
    if |ys| == 0 then 0
    else
      assert ys == ys[..|ys| - 1] + [ys[|ys| - 1]];
      CountEqual(ys[..|ys| - 1], x) + (if ys[|ys| - 1] == x then 1 else 0)
  }

  /** `sum(gv == hv for gv, hv in itt.product(xs, ys))` */
  function ProductMatches(xs: seq<Attrs>, ys: seq<Attrs>): nat {
    if |xs| == 0 then 0
    else ProductMatches(xs[..|xs| - 1], ys) + CountEqual(ys, xs[|xs| - 1])
  }

  /** `graph_provenance_equal(g, h)` as written: besides equal relations,
      for every edge `u -> v` of `g` the number of equal (g-data, h-data)
      combinations must equal the number of `u -> v` edges of `g`. */
  function ProvenanceEqual(g: Graph, h: Graph): (r: Result<bool, Error>)
    ensures r.Failure? <==> RelationsEqual(g, h).Failure?
    ensures r == Success(true) ==> RelationsEqual(g, h) == Success(true)
  {
    var related :- RelationsEqual(g, h);
    Success(related && forall e :: e in g.edges ==>
      |PairData(g.edges, e.u, e.v)| == ProductMatches(PairData(g.edges, e.u, e.v), PairData(h.edges, e.u, e.v)))
  }

  /** The chain of equalities: each test implies the one below it. */
  lemma EqualityChain(g: Graph, h: Graph)
    ensures ProvenanceEqual(g, h) == Success(true) ==> RelationsEqual(g, h) == Success(true)
    ensures RelationsEqual(g, h) == Success(true) ==> TopologicallyEqual(g, h)
    ensures TopologicallyEqual(g, h) ==> EdgesEqual(g, h) && EntitiesEqual(g, h)
  {
  }

  /** The data of the `u -> v` edges, as a multiset, is the same in both
      graphs for every connected pair. */
  predicate SameData(g: Graph, h: Graph) {
    forall e :: e in g.edges ==> multiset(PairData(g.edges, e.u, e.v)) == multiset(PairData(h.edges, e.u, e.v))
  }

  /** The test the docstring describes, "same attributes exactly": equal
      relations, and every pair carries the same edge data with the same
      multiplicities in both graphs. */
  function ProvenanceEqualIntended(g: Graph, h: Graph): (r: Result<bool, Error>)
    ensures r.Failure? <==> RelationsEqual(g, h).Failure?
    ensures r == Success(true) ==> RelationsEqual(g, h) == Success(true)
  {
    var related :- RelationsEqual(g, h);
    Success(related && SameData(g, h))
  }

  /** An empty pair has no data. */
  lemma {:induction false} PairDataEmpty(es: seq<Edge>, u: Node, v: Node)
    ensures |PairData(es, u, v)| == 0 <==> forall e :: e in es ==> (e.u, e.v) != (u, v)
  {
    if |es| > 0 {
      assert forall f :: f in es <==> f in es[..|es| - 1] || f == es[|es| - 1];
      PairDataEmpty(es[..|es| - 1], u, v);
    }
  }

  /** Unlike the test as written, the intended one is symmetric. */
  lemma ProvenanceEqualIntendedSymmetric(g: Graph, h: Graph)
    ensures ProvenanceEqualIntended(g, h) == ProvenanceEqualIntended(h, g)
  {
    RelationsEqualSymmetric(g, h);
    if RelationsEqual(g, h) == Success(true) {
      assert Pairs(g) == Pairs(h);
      if SameData(g, h) {
        forall e | e in h.edges
          ensures multiset(PairData(h.edges, e.u, e.v)) == multiset(PairData(g.edges, e.u, e.v))
        {
          assert (e.u, e.v) in Pairs(g);
          var f :| f in g.edges && (f.u, f.v) == (e.u, e.v);
        }
      }
      if SameData(h, g) {
        forall e | e in g.edges
          ensures multiset(PairData(g.edges, e.u, e.v)) == multiset(PairData(h.edges, e.u, e.v))
        {
          assert (e.u, e.v) in Pairs(h);
          var f :| f in h.edges && (f.u, f.v) == (e.u, e.v);
        }
      }
    }
  }

  // The two graphs that show the asymmetry: `g` has one `a -> b` edge, `h`
  // the same edge and a second one with the same relation and other
  // evidence.
  const a: Node := [PROTEIN, "HGNC", "a"]
  const b: Node := [PROTEIN, "HGNC", "b"]

  function Evidence(text: string): Attrs {
    map[RELATION := Str("increases"), "evidence" := Str(text)]
  }

  const OneEdge: Graph := Graph([a, b], map[a := map[], b := map[]], [Edge(a, b, 0, Evidence("x"))])
  const TwoEdges: Graph := Graph([a, b], map[a := map[], b := map[]],
                                 [Edge(a, b, 0, Evidence("x")), Edge(a, b, 1, Evidence("y"))])

  lemma ShowcaseRelationsEqual()
    ensures RelationsEqual(OneEdge, TwoEdges) == Success(true)
    ensures RelationsEqual(TwoEdges, OneEdge) == Success(true)
  {
    var g := OneEdge;
    var h := TwoEdges;
    assert Pairs(g) == {(a, b)} by {
      assert (a, b) in Pairs(g);
    }
    assert Pairs(h) == {(a, b)} by {
      assert h.edges[0] in h.edges;
    }
    forall p, rel | p in Pairs(g)
      ensures RelatedBy(g.edges, p, rel) <==> RelatedBy(h.edges, p, rel)
    {
      if RelatedBy(h.edges, p, rel) {
        var e :| e in h.edges && (e.u, e.v) == p && RELATION in e.data && e.data[RELATION] == rel;
        assert g.edges[0] in g.edges;
      }
      if RelatedBy(g.edges, p, rel) {
        assert h.edges[0] in h.edges;
      }
    }
    RelationsEqualSpec(g, h);
    RelationsEqualSymmetric(g, h);
  }

  lemma ShowcaseData()
    ensures Evidence("x") != Evidence("y")
    ensures PairData(OneEdge.edges, a, b) == [Evidence("x")]
    ensures PairData(TwoEdges.edges, a, b) == [Evidence("x"), Evidence("y")]
    ensures forall e :: e in OneEdge.edges ==> (e.u, e.v) == (a, b)
    ensures forall e :: e in TwoEdges.edges ==> (e.u, e.v) == (a, b)
    ensures OneEdge.edges != [] && TwoEdges.edges != []
  {
    assert Evidence("x")["evidence"] != Evidence("y")["evidence"];
    assert TwoEdges.edges[..1] == [TwoEdges.edges[0]];
  }

  /** As written the test is asymmetric: `g` passes against `h`, which has
      an extra `a -> b` statement, ... */
  lemma ProvenanceEqualAccepts(g: Graph, h: Graph)
    requires g == OneEdge && h == TwoEdges
    ensures ProvenanceEqual(g, h) == Success(true)
  {
    ShowcaseRelationsEqual();
    ShowcaseData();
    assert ProductMatches([Evidence("x")], [Evidence("x"), Evidence("y")]) == 1;
  }

  /** ... but `h` fails against `g`. */
  lemma ProvenanceEqualRejects(g: Graph, h: Graph)
    requires g == OneEdge && h == TwoEdges
    ensures ProvenanceEqual(h, g) == Success(false)
  {
    ShowcaseRelationsEqual();
    ShowcaseData();
    var x := Evidence("x");
    var y := Evidence("y");
    assert ProductMatches([x, y], [x]) == 1 by {
      assert [x, y][..1] == [x];
      assert [x][..0] == [];
      assert ProductMatches([x], [x]) == ProductMatches([], [x]) + CountEqual([x], x);
      assert CountEqual([x], x) == 1;
      assert CountEqual([x], y) == 0;
      assert ProductMatches([x, y], [x]) == ProductMatches([x], [x]) + CountEqual([x], y);
    }
    assert h.edges[0] in h.edges;
  }

  /** The intended test tells the two graphs apart in both orders. */
  lemma ProvenanceEqualIntendedTellsApart(g: Graph, h: Graph)
    requires g == OneEdge && h == TwoEdges
    ensures ProvenanceEqualIntended(g, h) == Success(false)
    ensures ProvenanceEqualIntended(h, g) == Success(false)
  {
    ShowcaseRelationsEqual();
    ShowcaseData();
    var x := Evidence("x");
    var y := Evidence("y");
    assert multiset([x]) != multiset([x, y]) by {
      assert multiset([x])[y] == 0;
    }
    assert g.edges[0] in g.edges;
    ProvenanceEqualIntendedSymmetric(g, h);
  }

  // ---------------------------------------------------------------------
  // Set operations on pairs

  /** `graph_edges_intersection(g, h)` */
  function EdgesIntersection(g: Graph, h: Graph): (r: set<Pair>)
    ensures forall p :: p in r <==> p in Pairs(g) && p in Pairs(h)
  {
    Pairs(g) * Pairs(h)
  }

  /** `graph_edges_subtract(g, h)` */
  function EdgesSubtract(g: Graph, h: Graph): (r: set<Pair>)
    ensures forall p :: p in r <==> p in Pairs(g) && p !in Pairs(h)
  {
    Pairs(g) - Pairs(h)
  }

  /** `graph_edges_xor(g, h)`: the pairs of exactly one of the graphs. */
  function EdgesXor(g: Graph, h: Graph): (r: set<Pair>)
    ensures forall p :: p in r <==> (p in Pairs(g) <==> p !in Pairs(h))
  {
    (Pairs(g) + Pairs(h)) - (Pairs(g) * Pairs(h))
  }

  /** Intersection and xor do not depend on the order of the graphs, the
      xor is the union of the two subtractions, and a graph's pairs split
      into those it shares and those it alone has. */
  lemma EdgeSetLaws(g: Graph, h: Graph)
    ensures EdgesIntersection(g, h) == EdgesIntersection(h, g)
    ensures EdgesXor(g, h) == EdgesXor(h, g)
    ensures EdgesXor(g, h) == EdgesSubtract(g, h) + EdgesSubtract(h, g)
    ensures Pairs(g) == EdgesIntersection(g, h) + EdgesSubtract(g, h)
    ensures EdgesIntersection(g, h) !! EdgesSubtract(g, h)
    ensures EdgesEqual(g, h) <==> EdgesXor(g, h) == {}
  {
    if EdgesXor(g, h) == {} {
      forall p | p in Pairs(g) ensures p in Pairs(h) {
        assert p !in EdgesXor(g, h);
      }
      forall p | p in Pairs(h) ensures p in Pairs(g) {
        assert p !in EdgesXor(g, h);
      }
    }
  }

  // ---------------------------------------------------------------------
  // Histograms

  /** How many of the nodes `ns` have function `f`. */
  function WithFunction(g: Graph, ns: seq<Node>, f: Value): nat
    requires forall n :: n in ns ==> n in g.attrs && FUNCTION in g.attrs[n]
  {
    if |ns| == 0 then 0
    else WithFunction(g, ns[..|ns| - 1], f) + (if g.attrs[ns[|ns| - 1]][FUNCTION] == f then 1 else 0)
  }

  /** `Counter(data[FUNCTION] for _, data in g.nodes_iter(data=True))` over
      the nodes `ns`; reading the function raises `KeyError` where it is
      missing. */
  function CountFunctions(g: Graph, ns: seq<Node>): (r: Result<multiset<Value>, Error>)
    requires forall n :: n in ns ==> n in g.attrs
    ensures r.Success? <==> forall n :: n in ns ==> FUNCTION in g.attrs[n]
    ensures r.Failure? ==> r.error == KeyError(FUNCTION)
    ensures r.Success? ==> |r.value| == |ns|
    ensures r.Success? ==> forall f :: r.value[f] == WithFunction(g, ns, f)
  {
    if |ns| == 0 then Success(multiset{})
    else
      var front := ns[..|ns| - 1];
      var n := ns[|ns| - 1];
      assert forall m :: m in ns <==> m in front || m == n;
      var c :- CountFunctions(g, front);
      if FUNCTION !in g.attrs[n] then Failure(KeyError(FUNCTION))
      else Success(c + multiset{g.attrs[n][FUNCTION]})
  }

  /** `count_nodes(g)`: every node is counted once, under its function, so
      the counts add up to the number of nodes. */
  function CountNodes(g: Graph): (r: Result<multiset<Value>, Error>)
    requires WF(g)
    ensures r.Success? <==> forall n :: n in g.attrs ==> FUNCTION in g.attrs[n]
    ensures r.Success? ==> |r.value| == |g.attrs.Keys|
    ensures r.Success? ==> forall f :: r.value[f] == WithFunction(g, g.nodes, f)
  {
    DistinctCardinality(g.nodes);
    assert g.attrs.Keys == set n | n in g.nodes;
    CountFunctions(g, g.nodes)
  }

  /** The pairs joined by an edge with relation `rel`. */
  function PairsWith(es: seq<Edge>, rel: Value): set<Pair>
    requires forall e :: e in es ==> RELATION in e.data
  {
    set e | e in es && e.data[RELATION] == rel :: (e.u, e.v)
  }

  /** `Counter(relation for relations in graph_content_transform(g).values()
      for relation in relations)` over the edges `es`: a relation is
      counted once per pair it joins, however many edges carry it. */
  function CountRelationsPerPair(es: seq<Edge>): (r: multiset<Value>)
    requires forall e :: e in es ==> RELATION in e.data
    ensures forall rel :: r[rel] == |PairsWith(es, rel)|
  {
    if |es| == 0 then multiset{}
    else
      var front := es[..|es| - 1];
      var e := es[|es| - 1];
      assert forall f :: f in es <==> f in front || f == e;
      var c := CountRelationsPerPair(front);
      var rel := e.data[RELATION];
      assert PairsWith(es, rel) == PairsWith(front, rel) + {(e.u, e.v)};
      assert forall other :: other != rel ==> PairsWith(es, other) == PairsWith(front, other);
      if (e.u, e.v) in PairsWith(front, rel) then
        assert PairsWith(es, rel) == PairsWith(front, rel);
        c
      else
        assert |PairsWith(es, rel)| == |PairsWith(front, rel)| + 1;
        c + multiset{rel}
  }

  /** `count_edges(g)` */
  function CountEdges(g: Graph): (r: Result<multiset<Value>, Error>)
    ensures r.Success? <==> AllRelated(g)
    ensures r.Success? ==> forall rel :: r.value[rel] == |PairsWith(g.edges, rel)|
  {
    var transform :- Transform(g.edges);
    Success(CountRelationsPerPair(g.edges))
  }

  /** A relation is counted at most once per connected pair, and exactly
      as often as there are pairs whose relation set in
      `graph_content_transform` holds it. */
  lemma CountEdgesSpec(g: Graph, rel: Value)
    requires AllRelated(g)
    ensures CountEdges(g).value[rel] <= |Pairs(g)|
    ensures PairsWith(g.edges, rel) == set p | p in Transform(g.edges).value && rel in Transform(g.edges).value[p]
  {
    assert PairsWith(g.edges, rel) <= Pairs(g);
    SubsetCardinality(PairsWith(g.edges, rel), Pairs(g));
    var t := Transform(g.edges).value;
    forall p | p in t
      ensures rel in t[p] <==> p in PairsWith(g.edges, rel)
    {
      TransformSpec(g.edges, p, rel);
    }
    forall p | p in PairsWith(g.edges, rel)
      ensures p in t
    {
      TransformSpec(g.edges, p, rel);
    }
  }
}
