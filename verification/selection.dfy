/** Selecting parts of a graph by an edge annotation: grouping the nodes of
    the annotated edges by annotation value (`group_subgraphs`) and the
    subgraph induced by the edges with one annotation value
    (`get_subgraph_by_annotation`). */
module Selection {
  import opened Wrappers
  import opened Seqs
  import opened BelGraph
  import opened Utils

  /** An edge of `es` carries annotation `a` with value `v` and touches `x`. */
  ghost predicate GroupedBy(es: seq<Edge>, a: string, v: Value, x: Node) {
    exists e :: e in es && Annotation(e.data, a) == Some(v) && (x == e.u || x == e.v)
  }

  /** `group_subgraphs` of `selection` over the edges `es`: edges without
      the annotation are skipped; both endpoints of every other edge join
      the set of its annotation value. */
  function GroupEdges(es: seq<Edge>, a: string): (r: map<Value, set<Node>>)
  {
    if |es| == 0 then map[]
    else
      var m := GroupEdges(es[..|es| - 1], a);
      var e := es[|es| - 1];
      match Annotation(e.data, a)
      case None => m
      case Some(v) => m[v := (if v in m then m[v] else {}) + {e.u, e.v}]
  }

  /** Some edge of `es` carries annotation `a` with value `v`. */
  ghost predicate Annotated(es: seq<Edge>, a: string, v: Value) {
    exists e :: e in es && Annotation(e.data, a) == Some(v)
  }

  /** There is a group for every value the annotation takes and for no
      other; a node is in a group exactly when an edge with that value
      touches it. Groups are sets, so a node is listed once however many
      edges bring it. */
  lemma {:induction false} GroupEdgesSpec(es: seq<Edge>, a: string, v: Value, x: Node)
    ensures v in GroupEdges(es, a) <==> Annotated(es, a, v)
    ensures v in GroupEdges(es, a) ==> (x in GroupEdges(es, a)[v] <==> GroupedBy(es, a, v, x))
  {
    if |es| > 0 {
      var front := es[..|es| - 1];
      var e := es[|es| - 1];
      GroupEdgesSpec(front, a, v, x);
      assert forall f :: f in es <==> f in front || f == e;
      if Annotated(front, a, v) {
        var f :| f in front && Annotation(f.data, a) == Some(v);
        assert f in es;
      }
      if GroupedBy(front, a, v, x) {
        var f :| f in front && Annotation(f.data, a) == Some(v) && (x == f.u || x == f.v);
        assert f in es;
      }
    }
  }

  function GroupSubgraphs(g: Graph, a: string): (r: map<Value, set<Node>>) {
    GroupEdges(g.edges, a)
  }

  /** Every group holds only nodes of the graph. */
  lemma GroupsAreNodes(g: Graph, a: string, v: Value, x: Node)
    requires WF(g)
    requires v in GroupSubgraphs(g, a) && x in GroupSubgraphs(g, a)[v]
    ensures x in g.attrs
  {
    GroupEdgesSpec(g.edges, a, v, x);
  }

  /** `group_subgraphs` of `operations`, which reads `d[ANNOTATIONS]`
      without checking that it is there. */
  function GroupEdgesStrict(es: seq<Edge>, a: string): (r: Result<map<Value, set<Node>>, Error>)
  {
    if |es| == 0 then Success(map[])
    else
      var m :- GroupEdgesStrict(es[..|es| - 1], a);
      var e := es[|es| - 1];
      if ANNOTATIONS !in e.data then Failure(KeyError(ANNOTATIONS))
      else
        match Annotation(e.data, a)
        case None => Success(m)
        case Some(v) => Success(m[v := (if v in m then m[v] else {}) + {e.u, e.v}])
  }

  /** The two versions agree on graphs whose edges all have annotation
      dictionaries; on any other graph the `operations` one raises
      `KeyError`. */
  lemma {:induction false} GroupEdgesStrictAgrees(es: seq<Edge>, a: string)
    ensures GroupEdgesStrict(es, a) ==
      if forall e :: e in es ==> ANNOTATIONS in e.data then Success(GroupEdges(es, a))
      else Failure(KeyError(ANNOTATIONS))
  {
    if |es| > 0 {
      var front := es[..|es| - 1];
      assert forall f :: f in es <==> f in front || f == es[|es| - 1];
      GroupEdgesStrictAgrees(front, a);
    }
  }

  function GroupSubgraphsStrict(g: Graph, a: string): (r: Result<map<Value, set<Node>>, Error>)
    ensures r.Success? <==> forall e :: e in g.edges ==> ANNOTATIONS in e.data
    ensures r.Success? ==> r.value == GroupSubgraphs(g, a)
    ensures r.Failure? ==> r.error == KeyError(ANNOTATIONS)
  {
    GroupEdgesStrictAgrees(g.edges, a);
    GroupEdgesStrict(g.edges, a)
  }

  /** The edge test of `get_subgraph_by_annotation`. */
  predicate Selected(e: Edge, key: string, value: Value) {
    Annotation(e.data, key) == Some(value)
  }

  /** What the subgraph stores between `u` and `v`: nothing when no
      selected edge joins them, otherwise their data merged in order, a
      later edge's entries overriding an earlier one's. */
  function PairMerge(es: seq<Edge>, u: Node, v: Node, key: string, value: Value): Option<Attrs> {
    if |es| == 0 then None
    else
      var prior := PairMerge(es[..|es| - 1], u, v, key, value);
      var e := es[|es| - 1];
      if e.u == u && e.v == v && Selected(e, key, value) then
        Some(if prior.Some? then prior.value + e.data else e.data)
      else prior
  }

  lemma {:induction false} PairMergeNone(es: seq<Edge>, u: Node, v: Node, key: string, value: Value)
    ensures PairMerge(es, u, v, key, value).None? <==>
      forall e :: e in es && e.u == u && e.v == v ==> !Selected(e, key, value)
  {
    if |es| > 0 {
      assert forall f :: f in es <==> f in es[..|es| - 1] || f == es[|es| - 1];
      PairMergeNone(es[..|es| - 1], u, v, key, value);
    }
  }

  /** One copied edge: its endpoints are added with their dictionaries
      from `g` unless already there, then the edge is added in slot `k`. */
  function CopyEdge(g: Graph, bg: Graph, e: Edge, k: int): (r: Graph)
    requires e.u in g.attrs && e.v in g.attrs
    ensures r.attrs.Keys == bg.attrs.Keys + {e.u, e.v}
    ensures forall x :: x in bg.attrs ==> r.attrs[x] == bg.attrs[x]
    ensures r.attrs[e.u] == (if e.u in bg.attrs then bg.attrs[e.u] else g.attrs[e.u])
    ensures r.attrs[e.v] == (if e.v in bg.attrs then bg.attrs[e.v] else g.attrs[e.v])
    ensures EdgeData(r, e.u, e.v, k) == Some(if HasEdge(bg, e.u, e.v, k) then EdgeData(bg, e.u, e.v, k).value + e.data else e.data)
    ensures forall x, y, j :: (x, y, j) != (e.u, e.v, k) ==> EdgeData(r, x, y, j) == EdgeData(bg, x, y, j)
    ensures WF(bg) ==> WF(r)
  {
    var b2 := CopyNode(g, CopyNode(g, bg, e.u), e.v);
    assert EdgeData(b2, e.u, e.v, k) == EdgeData(bg, e.u, e.v, k);
    AddEdge(b2, e.u, e.v, k, e.data)
  }

  /** `if n not in bg: bg.add_node(n, graph.node[n])` */
  function CopyNode(g: Graph, bg: Graph, n: Node): (r: Graph)
    requires n in g.attrs
    ensures r.attrs.Keys == bg.attrs.Keys + {n}
    ensures forall x :: x in bg.attrs ==> r.attrs[x] == bg.attrs[x]
    ensures n !in bg.attrs ==> r.attrs[n] == g.attrs[n]
    ensures r.edges == bg.edges
    ensures WF(bg) ==> WF(r)
  {
    if n in bg.attrs then bg else AddNode(bg, n, g.attrs[n])
  }

  /** The edge loop of `get_subgraph_by_annotation` over `es`. Every copied
      edge is stored under the one key `k`, which stands for the annotation
      name the source uses as the edge key. */
  function SubgraphEdges(g: Graph, es: seq<Edge>, key: string, value: Value, k: int): (r: Graph)
    requires forall e :: e in es ==> e.u in g.attrs && e.v in g.attrs
    ensures WF(r)
    ensures forall x :: x in r.attrs ==> x in g.attrs && r.attrs[x] == g.attrs[x]
  {
    if |es| == 0 then EmptyIsWF(); Empty
    else
      var e := es[|es| - 1];
      assert e in es;
      var bg := SubgraphEdges(g, es[..|es| - 1], key, value, k);
      if Selected(e, key, value) then CopyEdge(g, bg, e, k) else bg
  }

  /** The nodes of the subgraph are exactly the endpoints of the selected
      edges. */
  lemma {:induction false} SubgraphNodes(g: Graph, es: seq<Edge>, key: string, value: Value, k: int, x: Node)
    requires forall e :: e in es ==> e.u in g.attrs && e.v in g.attrs
    ensures x in SubgraphEdges(g, es, key, value, k).attrs <==>
      exists e :: e in es && Selected(e, key, value) && (x == e.u || x == e.v)
  {
    if |es| > 0 {
      var front := es[..|es| - 1];
      assert forall f :: f in es <==> f in front || f == es[|es| - 1];
      SubgraphNodes(g, front, key, value, k, x);
    }
  }

  /** Between any two nodes the subgraph has at most the one edge with key
      `k`, carrying the merged data of the selected edges between them. */
  lemma {:induction false} SubgraphEdgeData(g: Graph, es: seq<Edge>, key: string, value: Value, k: int, u: Node, v: Node, j: int)
    requires forall e :: e in es ==> e.u in g.attrs && e.v in g.attrs
    ensures EdgeData(SubgraphEdges(g, es, key, value, k), u, v, j) == if j == k then PairMerge(es, u, v, key, value) else None
  {
    if |es| > 0 {
      var front := es[..|es| - 1];
      assert forall f :: f in front ==> f in es;
      SubgraphEdgeData(g, front, key, value, k, u, v, j);
    } else {
      assert EdgeData(Empty, u, v, j).None?;
    }
  }

  /** `get_subgraph_by_annotation(graph, key, value)`. */
  function SubgraphByAnnotation(g: Graph, key: string, value: Value, k: int): (r: Graph)
    requires WF(g)
    ensures WF(r)
  {
    SubgraphEdges(g, g.edges, key, value, k)
  }

  /** What it promises: the subgraph holds exactly the endpoints of the
      edges whose annotation `key` equals `value`, with their dictionaries
      from the graph, and one edge per connected pair. */
  lemma SubgraphByAnnotationSpec(g: Graph, key: string, value: Value, k: int)
    requires WF(g)
    ensures var r := SubgraphByAnnotation(g, key, value, k);
      && (forall x :: x in r.attrs <==> exists e :: e in g.edges && Selected(e, key, value) && (x == e.u || x == e.v))
      && (forall x :: x in r.attrs ==> r.attrs[x] == g.attrs[x])
      && (forall u, v, j :: HasEdge(r, u, v, j) <==>
            j == k && exists e :: e in g.edges && e.u == u && e.v == v && Selected(e, key, value))
  {
    forall x
      ensures x in SubgraphByAnnotation(g, key, value, k).attrs <==>
        exists e :: e in g.edges && Selected(e, key, value) && (x == e.u || x == e.v)
    {
      SubgraphNodes(g, g.edges, key, value, k, x);
    }
    forall u, v, j
      ensures HasEdge(SubgraphByAnnotation(g, key, value, k), u, v, j) <==>
            j == k && exists e :: e in g.edges && e.u == u && e.v == v && Selected(e, key, value)
    {
      SubgraphEdgeData(g, g.edges, key, value, k, u, v, j);
      PairMergeNone(g.edges, u, v, key, value);
    }
  }
}
