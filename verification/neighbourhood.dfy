/** The neighbourhood expansion of the dictionary-backed query service:
    `expand_graph_around_node` copies a node's predecessors, successors and
    their edges from the query graph into a result graph. Also the two
    small record builders of the same file. */
module Neighbourhood {
  import opened Wrappers
  import opened Seqs
  import opened BelGraph

  function Predecessors(g: Graph, n: Node): set<Node> {
    set e | e in g.edges && e.v == n :: e.u
  }

  /** The endpoint of `e` on the far side from the node being expanded. */
  function Far(e: Edge, incoming: bool): Node {
    if incoming then e.u else e.v
  }

  function FarEnds(es: seq<Edge>, incoming: bool): set<Node> {
    set e | e in es :: Far(e, incoming)
  }

  /** `graph.add_node(m, attr_dict=data(m))` for the far end `m` of each
      edge, unless `m` is already in the graph. */
  function AddAbsent(g: Graph, es: seq<Edge>, incoming: bool, data: Node -> Attrs): (r: Graph)
    ensures r.attrs.Keys == g.attrs.Keys + FarEnds(es, incoming)
    ensures forall m :: m in g.attrs ==> r.attrs[m] == g.attrs[m]
    ensures forall m :: m in r.attrs && m !in g.attrs ==> r.attrs[m] == data(m)
    ensures r.edges == g.edges
    ensures WF(g) ==> WF(r)
  {
    if |es| == 0 then g
    else
      var front := es[..|es| - 1];
      var m := Far(es[|es| - 1], incoming);
      var g1 := AddAbsent(g, front, incoming, data);
      FarEndsStep(es, incoming);
      AbsentStep(g, g1, m, data);
      if m in g1.attrs then g1 else AddNode(g1, m, data(m))
  }

  lemma FarEndsStep(es: seq<Edge>, incoming: bool)
    requires |es| > 0
    ensures FarEnds(es, incoming) == FarEnds(es[..|es| - 1], incoming) + {Far(es[|es| - 1], incoming)}
  {
    assert es == es[..|es| - 1] + [es[|es| - 1]];
  }

  /** Adding `m` when it is absent keeps what AddAbsent states. */
  lemma AbsentStep(g: Graph, g1: Graph, m: Node, data: Node -> Attrs)
    requires forall n :: n in g.attrs ==> n in g1.attrs && g1.attrs[n] == g.attrs[n]
    requires forall n :: n in g1.attrs && n !in g.attrs ==> g1.attrs[n] == data(n)
    ensures var r := if m in g1.attrs then g1 else AddNode(g1, m, data(m));
      && r.attrs.Keys == g1.attrs.Keys + {m}
      && (forall n :: n in g.attrs ==> r.attrs[n] == g.attrs[n])
      && (forall n :: n in r.attrs && n !in g.attrs ==> r.attrs[n] == data(n))
      && r.edges == g1.edges
      && (WF(g1) ==> WF(r))
  {
  }

  /** The edge loops: each edge is added to the graph with its own
      endpoints, an unqualified one under its key, any other under a fresh
      key. */
  function CopyAll(g: Graph, es: seq<Edge>): (r: Graph)
    ensures WF(g) ==> WF(r)
    ensures Grows(g, r)
    ensures (forall e :: e in es ==> e.u in g.attrs && e.v in g.attrs) ==> r.attrs == g.attrs
    ensures forall x, y, j :: HasEdge(r, x, y, j) ==> HasEdge(g, x, y, j) || exists e :: e in es && e.u == x && e.v == y
  {
    if |es| == 0 then g
    else
      var front := es[..|es| - 1];
      var e := es[|es| - 1];
      var g1 := CopyAll(g, front);
      var r := CopyEdgeTo(g1, e.u, e.v, e.key, e.data);
      GrowsTransitive(g, g1, r);
      assert forall f :: f in front ==> f in es;
      r
  }

  /** Each edge of `es` has its copy: under its own key when that is
      negative, under some non-negative key with its data otherwise. */
  lemma {:induction false} CopyAllCovers(g: Graph, es: seq<Edge>, e: Edge)
    requires e in es
    ensures e.key < 0 ==> HasEdge(CopyAll(g, es), e.u, e.v, e.key)
    ensures e.key >= 0 ==> exists j :: j >= 0 && EdgeData(CopyAll(g, es), e.u, e.v, j) == Some(e.data)
  {
    var front := es[..|es| - 1];
    var last := es[|es| - 1];
    var g1 := CopyAll(g, front);
    var r := CopyAll(g, es);
    assert Grows(g1, r);
    if e != last {
      assert e in front;
      CopyAllCovers(g, front, e);
      if e.key >= 0 {
        var j :| j >= 0 && EdgeData(g1, e.u, e.v, j) == Some(e.data);
        assert HasEdge(g1, e.u, e.v, j);
      }
    }
  }

  /** The dictionary a newly added neighbour `m` of `n` receives: the
      source passes `query_graph.node[node]`, the centre's own dictionary;
      with `ownData` it is the neighbour's. */
  function NeighbourData(q: Graph, n: Node, m: Node, ownData: bool): Attrs
    requires n in q.attrs
  {
    if ownData && m in q.attrs then q.attrs[m] else q.attrs[n]
  }

  /** The predecessor half of the expansion, once the node `n` is in the
      graph: predecessors not yet present are added, and only their edges
      into `n` are copied. */
  function ExpandIn(g: Graph, q: Graph, n: Node, data: Node -> Attrs): (r: Graph)
    requires n in g.attrs
    ensures r.attrs.Keys == g.attrs.Keys + Predecessors(q, n)
    ensures forall m :: m in g.attrs ==> r.attrs[m] == g.attrs[m]
    ensures forall m :: m in r.attrs && m !in g.attrs ==> r.attrs[m] == data(m)
    ensures Grows(g, r)
    ensures WF(g) ==> WF(r)
    ensures forall x, y, j :: HasEdge(r, x, y, j) ==> HasEdge(g, x, y, j) || (y == n && x !in g.attrs)
  {
    var ins := InEdges(q, n);
    var g1 := AddPredecessors(g, q, n, data);
    var copied := Filter(ins, (e: Edge) => e.u !in g.attrs);
    assert forall e :: e in copied ==> e.u in g1.attrs && e.v in g1.attrs && e.v == n && e.u !in g.attrs;
    var r := CopyAll(g1, copied);
    assert r.attrs == g1.attrs;
    r
  }

  function AddPredecessors(g: Graph, q: Graph, n: Node, data: Node -> Attrs): (r: Graph)
    ensures r.attrs.Keys == g.attrs.Keys + Predecessors(q, n)
    ensures forall m :: m in g.attrs ==> r.attrs[m] == g.attrs[m]
    ensures forall m :: m in r.attrs && m !in g.attrs ==> r.attrs[m] == data(m)
    ensures r.edges == g.edges
    ensures WF(g) ==> WF(r)
  {
    var ins := InEdges(q, n);
    assert FarEnds(ins, true) == Predecessors(q, n);
    AddAbsent(g, ins, true, data)
  }

  /** The successor half: successors not yet present are added, and every
      edge out of `n` is copied. */
  function ExpandOut(g: Graph, q: Graph, n: Node, data: Node -> Attrs): (r: Graph)
    requires n in g.attrs
    ensures r.attrs.Keys == g.attrs.Keys + Successors(q, n)
    ensures forall m :: m in g.attrs ==> r.attrs[m] == g.attrs[m]
    ensures forall m :: m in r.attrs && m !in g.attrs ==> r.attrs[m] == data(m)
    ensures Grows(g, r)
    ensures WF(g) ==> WF(r)
    ensures forall x, y, j :: HasEdge(r, x, y, j) ==> HasEdge(g, x, y, j) || x == n
  {
    var outs := OutEdges(q, n);
    assert FarEnds(outs, false) == Successors(q, n);
    var g1 := AddAbsent(g, outs, false, data);
    assert forall e :: e in outs ==> e.u in g1.attrs && e.v in g1.attrs;
    var r := CopyAll(g1, outs);
    assert r.attrs == g1.attrs;
    r
  }

  /** `expand_graph_around_node(graph, query_graph, node)`, with the
      neighbours' dictionaries chosen by `ownData` (false as written).
      A node missing from the query graph raises `ValueError`. Otherwise
      the node is added with its query data if absent; the predecessors
      not yet in the graph are added and their edges into the node copied;
      then the successors not yet in the graph are added and every edge
      out of the node is copied. Nothing already in the graph is lost. */
  function Expand(g: Graph, q: Graph, n: Node, ownData: bool): (r: Result<Graph, Error>)
    ensures r.Failure? <==> n !in q.attrs
    ensures r.Failure? ==> r.error.ValueError?
    ensures r.Success? ==> r.value.attrs.Keys == g.attrs.Keys + {n} + Predecessors(q, n) + Successors(q, n)
    ensures r.Success? ==> forall m :: m in g.attrs ==> r.value.attrs[m] == g.attrs[m]
    ensures r.Success? && n !in g.attrs ==> r.value.attrs[n] == q.attrs[n]
    ensures r.Success? ==> forall m :: m in r.value.attrs && m !in g.attrs && m != n ==> r.value.attrs[m] == NeighbourData(q, n, m, ownData)
    ensures r.Success? ==> Grows(g, r.value)
    ensures r.Success? && WF(g) ==> WF(r.value)
  {
    if n !in q.attrs then Failure(ValueError("node not in graph"))
    else
      var data := (m: Node) => NeighbourData(q, n, m, ownData);
      var g1 := if n in g.attrs then g else AddNode(g, n, q.attrs[n]);
      var g2 := ExpandIn(g1, q, n, data);
      var g3 := ExpandOut(g2, q, n, data);
      assert Grows(g, g1);
      ExpandChain(g, g1, g2, g3, q, n, ownData, data);
      Success(g3)
  }

  /** What the three steps of an expansion add up to. */
  lemma ExpandChain(g: Graph, g1: Graph, g2: Graph, g3: Graph, q: Graph, n: Node, ownData: bool, data: Node -> Attrs)
    requires n in q.attrs && forall m :: data(m) == NeighbourData(q, n, m, ownData)
    requires g1.attrs.Keys == g.attrs.Keys + {n}
    requires forall m :: m in g.attrs ==> g1.attrs[m] == g.attrs[m]
    requires n !in g.attrs ==> g1.attrs[n] == q.attrs[n]
    requires Grows(g, g1) && (WF(g) ==> WF(g1))
    requires g2.attrs.Keys == g1.attrs.Keys + Predecessors(q, n)
    requires forall m :: m in g1.attrs ==> g2.attrs[m] == g1.attrs[m]
    requires forall m :: m in g2.attrs && m !in g1.attrs ==> g2.attrs[m] == data(m)
    requires Grows(g1, g2) && (WF(g1) ==> WF(g2))
    requires g3.attrs.Keys == g2.attrs.Keys + Successors(q, n)
    requires forall m :: m in g2.attrs ==> g3.attrs[m] == g2.attrs[m]
    requires forall m :: m in g3.attrs && m !in g2.attrs ==> g3.attrs[m] == data(m)
    requires Grows(g2, g3) && (WF(g2) ==> WF(g3))
    ensures g3.attrs.Keys == g.attrs.Keys + {n} + Predecessors(q, n) + Successors(q, n)
    ensures forall m :: m in g.attrs ==> g3.attrs[m] == g.attrs[m]
    ensures n !in g.attrs ==> g3.attrs[n] == q.attrs[n]
    ensures forall m :: m in g3.attrs && m !in g.attrs && m != n ==> g3.attrs[m] == NeighbourData(q, n, m, ownData)
    ensures Grows(g, g3) && (WF(g) ==> WF(g3))
  {
    GrowsTransitive(g, g1, g2);
    GrowsTransitive(g, g2, g3);
  }

  /** Every edge into the node from a predecessor not yet in the graph is
      copied: an unqualified one under its own key, any other with its
      data under some non-negative key. */
  lemma ExpandCopiesIn(g: Graph, q: Graph, n: Node, ownData: bool, e: Edge)
    requires n in q.attrs && e in q.edges && e.v == n && e.u !in g.attrs && e.u != n
    ensures e.key < 0 ==> HasEdge(Expand(g, q, n, ownData).value, e.u, n, e.key)
    ensures e.key >= 0 ==> exists j :: j >= 0 && EdgeData(Expand(g, q, n, ownData).value, e.u, n, j) == Some(e.data)
  {
    var data := (m: Node) => NeighbourData(q, n, m, ownData);
    var g1 := if n in g.attrs then g else AddNode(g, n, q.attrs[n]);
    var ins := InEdges(q, n);
    var h := AddPredecessors(g1, q, n, data);
    var copied := Filter(ins, (f: Edge) => f.u !in g1.attrs);
    assert e in copied;
    CopyAllCovers(h, copied, e);
    var g2 := ExpandIn(g1, q, n, data);
    assert g2 == CopyAll(h, copied);
    var r := ExpandOut(g2, q, n, data);
    assert Expand(g, q, n, ownData).value == r;
    if e.key >= 0 {
      var j :| j >= 0 && EdgeData(g2, e.u, n, j) == Some(e.data);
      assert HasEdge(g2, e.u, n, j);
    }
  }

  /** Every edge out of the node is copied, whether or not its target was
      already in the graph. */
  lemma ExpandCopiesOut(g: Graph, q: Graph, n: Node, ownData: bool, e: Edge)
    requires n in q.attrs && e in q.edges && e.u == n
    ensures e.key < 0 ==> HasEdge(Expand(g, q, n, ownData).value, n, e.v, e.key)
    ensures e.key >= 0 ==> exists j :: j >= 0 && EdgeData(Expand(g, q, n, ownData).value, n, e.v, j) == Some(e.data)
  {
    var data := (m: Node) => NeighbourData(q, n, m, ownData);
    var g1 := if n in g.attrs then g else AddNode(g, n, q.attrs[n]);
    var g2 := ExpandIn(g1, q, n, data);
    var outs := OutEdges(q, n);
    var h := AddAbsent(g2, outs, false, data);
    CopyAllCovers(h, outs, e);
    assert Expand(g, q, n, ownData).value == CopyAll(h, outs);
  }

  /** A predecessor already in the graph is skipped entirely: the
      expansion adds no edge from it into the node. */
  lemma ExpandSkipsKnownPredecessors(g: Graph, q: Graph, n: Node, ownData: bool, x: Node, j: int)
    requires n in q.attrs && x in g.attrs && x != n
    ensures HasEdge(Expand(g, q, n, ownData).value, x, n, j) ==> HasEdge(g, x, n, j)
  {
    var data := (m: Node) => NeighbourData(q, n, m, ownData);
    var g1 := if n in g.attrs then g else AddNode(g, n, q.attrs[n]);
    assert forall y, k :: EdgeData(g1, x, y, k) == EdgeData(g, x, y, k);
    var g2 := ExpandIn(g1, q, n, data);
    assert Expand(g, q, n, ownData).value == ExpandOut(g2, q, n, data);
  }

  /** As written, a new neighbour gets the centre's dictionary: one whose
      own query dictionary differs ends up with the wrong one. */
  lemma ExpandCopiesCentreData(g: Graph, q: Graph, n: Node, m: Node)
    requires n in q.attrs && m in q.attrs && m !in g.attrs && m != n
    requires m in Predecessors(q, n) || m in Successors(q, n)
    requires q.attrs[m] != q.attrs[n]
    ensures Expand(g, q, n, false).value.attrs[m] == q.attrs[n]
    ensures Expand(g, q, n, false).value.attrs[m] != q.attrs[m]
  {
  }

  /** With the neighbour's own dictionary, every node the expansion adds
      carries its query-graph data. */
  lemma ExpandKeepsNeighbourData(g: Graph, q: Graph, n: Node, m: Node)
    requires WF(q) && n in q.attrs && m !in g.attrs
    requires m in Expand(g, q, n, true).value.attrs
    ensures m in q.attrs
    ensures Expand(g, q, n, true).value.attrs[m] == q.attrs[m]
  {
    if m != n {
      assert m in Predecessors(q, n) || m in Successors(q, n);
    }
  }

  /** The citation dictionary keys, with the values pybel gives them. */
  const CITATION_TYPE := "type"
  const CITATION_NAME := "name"
  const CITATION_REFERENCE := "reference"
  const CITATION_DATE := "date"
  const CITATION_AUTHORS := "authors"
  const CITATION_COMMENTS := "comments"

  const CitationFields: seq<string> :=
    [CITATION_TYPE, CITATION_NAME, CITATION_REFERENCE, CITATION_DATE, CITATION_AUTHORS, CITATION_COMMENTS]

  /** `_citation_to_tuple(citation)`: `citation.get` of each field, in the
      fixed order type, name, reference, date, authors, comments. */
  function CitationToTuple(c: map<string, Value>): (r: seq<Option<Value>>)
    ensures |r| == |CitationFields|
  {
    seq(|CitationFields|, i requires 0 <= i < |CitationFields| =>
      if CitationFields[i] in c then Some(c[CitationFields[i]]) else None)
  }

  /** The dictionary a six-field tuple describes: its present fields. */
  function TupleToCitation(t: seq<Option<Value>>): (r: map<string, Value>)
    requires |t| == |CitationFields|
    ensures r.Keys <= set f | f in CitationFields
  {
    map i | 0 <= i < |CitationFields| && t[i].Some? :: CitationFields[i] := t[i].value
  }

  /** The tuple keeps exactly the six citation fields: reading it back
      gives back the citation's entries for those fields, and nothing
      else. */
  lemma CitationRoundTrip(c: map<string, Value>)
    ensures TupleToCitation(CitationToTuple(c)) == map f | f in c && f in CitationFields :: c[f]
  {
    var r := TupleToCitation(CitationToTuple(c));
    forall f | f in c && f in CitationFields
      ensures f in r && r[f] == c[f]
    {
      var i :| 0 <= i < |CitationFields| && CitationFields[i] == f;
      assert CitationToTuple(c)[i] == Some(c[f]);
    }
  }

  /** Every six-field tuple, `None` meaning absent, is the tuple of
      the citation it describes. */
  lemma TupleRoundTrip(t: seq<Option<Value>>)
    requires |t| == |CitationFields|
    ensures CitationToTuple(TupleToCitation(t)) == t
  {
    var c := TupleToCitation(t);
    forall i | 0 <= i < |CitationFields|
      ensures CitationToTuple(c)[i] == t[i]
    {
      var f := CitationFields[i];
      if f in c {
        var k :| 0 <= k < |CitationFields| && t[k].Some? && CitationFields[k] == f;
        assert k == i;
      }
    }
  }

  /** A value of the JSON edge record. */
  datatype Json = JNode(node: Node) | JData(data: Attrs)

  /** `_build_edge_json(u, v, d)`: the dictionary with keys `source`,
      `target` and `data`. */
  function BuildEdgeJson(u: Node, v: Node, d: Attrs): (r: map<string, Json>)
    ensures r.Keys == {"source", "target", "data"}
  {
    map["source" := JNode(u), "target" := JNode(v), "data" := JData(d)]
  }

  /** The record loses nothing: it determines the endpoints and the data. */
  lemma EdgeJsonInjective(u: Node, v: Node, d: Attrs, u': Node, v': Node, d': Attrs)
    requires BuildEdgeJson(u, v, d) == BuildEdgeJson(u', v', d')
    ensures u == u' && v == v' && d == d'
  {
    assert BuildEdgeJson(u, v, d)["source"] == JNode(u);
    assert BuildEdgeJson(u, v, d)["target"] == JNode(v);
    assert BuildEdgeJson(u, v, d)["data"] == JData(d);
  }
}
