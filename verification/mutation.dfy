/** Functions that mutate a BEL graph in place, modelled as functions from
    the graph before to the graph after: left merge, node collapsing,
    central-dogma collapse and inference, pruning and inverse-edge
    inference. */
module Mutation {
  import opened Wrappers
  import opened Seqs
  import opened BelGraph

  // ---------------------------------------------------------------------
  // Left merge

  /** Some `u -> v` edge of `g` carries data `d`. */
  ghost predicate HasData(g: Graph, u: Node, v: Node, d: Attrs) {
    exists j :: EdgeData(g, u, v, j) == Some(d)
  }

  /** `g.edge[u][v].values()` as a set. */
  function PairData(g: Graph, u: Node, v: Node): set<Attrs> {
    set e | e in g.edges && e.u == u && e.v == v :: e.data
  }

  lemma InEdgesMeansEdgeData(g: Graph, e: Edge)
    requires WF(g) && e in g.edges
    ensures EdgeData(g, e.u, e.v, e.key) == Some(e.data)
  {
    var r := EdgeData(g, e.u, e.v, e.key);
    assert r.Some?;
    var i :| 0 <= i < |g.edges| && g.edges[i] == e;
    var j :| 0 <= j < |g.edges| && g.edges[j] == Edge(e.u, e.v, e.key, r.value);
    assert Slot(g.edges[i]) == Slot(g.edges[j]);
  }

  lemma PairDataIsHasData(g: Graph, u: Node, v: Node, d: Attrs)
    requires WF(g)
    ensures d in PairData(g, u, v) <==> HasData(g, u, v, d)
  {
    if d in PairData(g, u, v) {
      var e :| e in g.edges && e.u == u && e.v == v && e.data == d;
      InEdgesMeansEdgeData(g, e);
    }
    if HasData(g, u, v, d) {
      var j :| EdgeData(g, u, v, j) == Some(d);
      assert Edge(u, v, j, d) in g.edges;
    }
  }

  /** The guard `left_merge` puts on copying `e`: a qualified edge is
      already there when some edge between the same pair carries equal
      data; an unqualified edge when its key is already used. */
  ghost predicate Represented(g: Graph, e: Edge) {
    if e.key >= 0 then HasData(g, e.u, e.v, e.data) else HasEdge(g, e.u, e.v, e.key)
  }

  /** Every edge of `g` is still in `r` with the same data, and every node
      of `g` keeps its dictionary. */
  ghost predicate Extends(g: Graph, r: Graph) {
    && g.attrs.Keys <= r.attrs.Keys
    && (forall n :: n in g.attrs ==> r.attrs[n] == g.attrs[n])
    && (forall x, y, j :: HasEdge(g, x, y, j) ==> EdgeData(r, x, y, j) == EdgeData(g, x, y, j))
  }

  /** An edge that is in `r` but was not in `g`, in the slot `(x, y, j)`
      with data `d`, is a copy of `e`: same endpoints and data, the same key
      if `e` is unqualified, and data that no `x -> y` edge of `g` had if
      `e` is qualified. */
  ghost predicate CopyOf(g: Graph, e: Edge, x: Node, y: Node, j: int, d: Attrs) {
    && e.u == x && e.v == y && e.data == d
    && if e.key >= 0 then !HasData(g, x, y, d) else j == e.key
  }

  /** Every edge `r` has beyond those of `g` is a copy of one of `es`. */
  ghost predicate OnlyCopies(g: Graph, r: Graph, es: seq<Edge>) {
    forall x, y, j :: HasEdge(r, x, y, j) && !HasEdge(g, x, y, j) ==>
      exists e :: e in es && CopyOf(g, e, x, y, j, EdgeData(r, x, y, j).value)
  }

  /** One iteration of the edge loop of `left_merge`, with the missing
      `u -> v` dictionary read as empty. */
  function MergeEdge(g: Graph, e: Edge): (r: Graph)
    requires WF(g) && e.u in g.attrs && e.v in g.attrs
    ensures WF(r)
    ensures r.attrs == g.attrs
  {
    if e.key >= 0 then
      if e.data in PairData(g, e.u, e.v) then g
      else AddFreshEdge(g, e.u, e.v, e.data)
    else if HasEdge(g, e.u, e.v, e.key) then g
    else AddEdge(g, e.u, e.v, e.key, e.data)
  }

  /** One step keeps the edges of `g`, represents `e`, changes nothing
      when `e` is already represented, and adds at most a copy of `e`. */
  lemma MergeEdgeSpec(g: Graph, e: Edge)
    requires WF(g) && e.u in g.attrs && e.v in g.attrs
    ensures Extends(g, MergeEdge(g, e))
    ensures Represented(MergeEdge(g, e), e)
    ensures Represented(g, e) ==> MergeEdge(g, e) == g
    ensures OnlyCopies(g, MergeEdge(g, e), [e])
  {
    PairDataIsHasData(g, e.u, e.v, e.data);
    if e.key >= 0 && e.data !in PairData(g, e.u, e.v) {
      assert CopyOf(g, e, e.u, e.v, FreshKey(g, e.u, e.v), e.data);
    }
  }

  lemma ExtendsKeepsData(g: Graph, r: Graph, u: Node, v: Node, d: Attrs)
    requires Extends(g, r) && HasData(g, u, v, d)
    ensures HasData(r, u, v, d)
  {
    var j :| EdgeData(g, u, v, j) == Some(d);
    assert EdgeData(r, u, v, j) == Some(d);
  }

  lemma ExtendsKeepsRepresented(g: Graph, r: Graph, e: Edge)
    requires Extends(g, r) && Represented(g, e)
    ensures Represented(r, e)
  {
    if e.key >= 0 {
      ExtendsKeepsData(g, r, e.u, e.v, e.data);
    }
  }

  lemma {:induction false} ExtendsTransitive(a: Graph, b: Graph, c: Graph)
    requires Extends(a, b) && Extends(b, c)
    ensures Extends(a, c)
  {
  }

  /** The edge loop of `left_merge` over `es`, in order. */
  function MergeEdges(g: Graph, es: seq<Edge>): (r: Graph)
    requires WF(g)
    requires forall e :: e in es ==> e.u in g.attrs && e.v in g.attrs
    ensures WF(r)
    ensures r.attrs == g.attrs
    decreases |es|
  {
    if |es| == 0 then g
    else MergeEdge(MergeEdges(g, es[..|es| - 1]), es[|es| - 1])
  }

  /** The edge loop keeps every edge of `g`, leaves each edge of `es`
      represented, and adds nothing but copies of edges of `es`. */
  lemma {:induction false} MergeEdgesSpec(g: Graph, es: seq<Edge>)
    requires WF(g)
    requires forall e :: e in es ==> e.u in g.attrs && e.v in g.attrs
    ensures Extends(g, MergeEdges(g, es))
    ensures forall e :: e in es ==> Represented(MergeEdges(g, es), e)
    ensures OnlyCopies(g, MergeEdges(g, es), es)
    decreases |es|
  {
    if |es| > 0 {
      var front := es[..|es| - 1];
      var last := es[|es| - 1];
      MergeEdgesSpec(g, front);
      var m := MergeEdges(g, front);
      var r := MergeEdge(m, last);
      assert MergeEdges(g, es) == r;
      MergeEdgeSpec(m, last);
      ExtendsTransitive(g, m, r);
      forall e | e in es
        ensures Represented(r, e)
      {
        if e != last {
          assert e in front;
          ExtendsKeepsRepresented(m, r, e);
        }
      }
      forall x, y, j | HasEdge(r, x, y, j) && !HasEdge(g, x, y, j)
        ensures exists e :: e in es && CopyOf(g, e, x, y, j, EdgeData(r, x, y, j).value)
      {
        var d := EdgeData(r, x, y, j).value;
        if HasEdge(m, x, y, j) {
          assert EdgeData(m, x, y, j) == EdgeData(r, x, y, j);
          var e :| e in front && CopyOf(g, e, x, y, j, d);
          assert e in es;
        } else {
          assert CopyOf(m, last, x, y, j, d);
          if last.key >= 0 && HasData(g, x, y, d) {
            ExtendsKeepsData(g, m, x, y, d);
          }
          assert CopyOf(g, last, x, y, j, d);
        }
      }
    }
  }

  /** The node loop of `left_merge`: each node of `ns` that `g` lacks is
      added with its dictionary from `h`. */
  function MergeNodes(g: Graph, ns: seq<Node>, h: map<Node, Attrs>): (r: Graph)
    requires WF(g)
    requires forall n :: n in ns ==> n in h
    ensures WF(r)
    ensures forall n :: n in ns ==> n in r.attrs
    ensures forall n :: n in r.attrs ==> n in g.attrs || n in ns
    ensures g.attrs.Keys <= r.attrs.Keys
    ensures forall n :: n in g.attrs ==> r.attrs[n] == g.attrs[n]
    ensures forall n :: n in r.attrs && n !in g.attrs ==> r.attrs[n] == h[n]
    ensures r.edges == g.edges
    decreases |ns|
  {
    if |ns| == 0 then g
    else
      var front := ns[..|ns| - 1];
      var n := ns[|ns| - 1];
      assert forall m :: m in ns <==> m in front || m == n;
      var m := MergeNodes(g, front, h);
      if n in m.attrs then m else AddNode(m, n, h[n])
  }

  /** `left_merge(g, h)`, with a missing `u -> v` dictionary of `g` read as
      empty: `g` gains every node of `h` it lacks, with `h`'s dictionary,
      and every edge of `h` it does not already represent. */
  function LeftMerge(g: Graph, h: Graph): (r: Graph)
    requires WF(g) && WF(h)
    ensures WF(r)
  {
    var m := MergeNodes(g, h.nodes, h.attrs);
    EndpointsAreNodes(h);
    assert forall e :: e in h.edges ==> e.u in m.attrs && e.v in m.attrs;
    MergeEdges(m, h.edges)
  }

  /** What `left_merge` promises about nodes: every node of `h` ends up in
      `g`, nodes already in `g` keep their own dictionary, and new nodes
      bring `h`'s. */
  lemma LeftMergeNodes(g: Graph, h: Graph)
    requires WF(g) && WF(h)
    ensures var r := LeftMerge(g, h);
      && r.attrs.Keys == g.attrs.Keys + h.attrs.Keys
      && (forall n :: n in g.attrs ==> r.attrs[n] == g.attrs[n])
      && (forall n :: n in h.attrs && n !in g.attrs ==> r.attrs[n] == h.attrs[n])
  {
    var m := MergeNodes(g, h.nodes, h.attrs);
    EndpointsAreNodes(h);
    assert forall e :: e in h.edges ==> e.u in m.attrs && e.v in m.attrs;
    assert LeftMerge(g, h).attrs == m.attrs;
  }

  lemma EndpointsAreNodes(h: Graph)
    requires WF(h)
    ensures forall n :: n in h.nodes <==> n in h.attrs
    ensures forall e :: e in h.edges ==> e.u in h.attrs && e.v in h.attrs
  {
  }

  /** What `left_merge` promises about edges: the edges of `g` stay as they
      were, every edge of `h` is represented afterwards, and every added
      edge copies an edge of `h` that `g` did not represent. */
  lemma LeftMergeEdges(g: Graph, h: Graph)
    requires WF(g) && WF(h)
    ensures var r := LeftMerge(g, h);
      && (forall x, y, j :: HasEdge(g, x, y, j) ==> EdgeData(r, x, y, j) == EdgeData(g, x, y, j))
      && (forall e :: e in h.edges ==> Represented(r, e))
      && OnlyCopies(g, r, h.edges)
  {
    var m := MergeNodes(g, h.nodes, h.attrs);
    EndpointsAreNodes(h);
    assert forall e :: e in h.edges ==> e.u in m.attrs && e.v in m.attrs;
    MergeEdgesSpec(m, h.edges);
    var r := MergeEdges(m, h.edges);
    assert LeftMerge(g, h) == r;
    SameEdgesSameCopies(g, m, r, h.edges);
  }

  lemma SameEdgesSameCopies(g: Graph, m: Graph, r: Graph, es: seq<Edge>)
    requires g.edges == m.edges
    requires Extends(m, r) && OnlyCopies(m, r, es)
    ensures forall x, y, j :: HasEdge(g, x, y, j) ==> EdgeData(r, x, y, j) == EdgeData(g, x, y, j)
    ensures OnlyCopies(g, r, es)
  {
    assert forall x, y, j :: EdgeData(g, x, y, j) == EdgeData(m, x, y, j);
    assert forall x, y, d :: HasData(g, x, y, d) <==> HasData(m, x, y, d);
  }

  /** A graph that already represents all of `h`'s nodes and edges is left
      as it is: merging is idempotent. */
  lemma {:induction false} MergeEdgesNoop(g: Graph, es: seq<Edge>)
    requires WF(g)
    requires forall e :: e in es ==> e.u in g.attrs && e.v in g.attrs
    requires forall e :: e in es ==> Represented(g, e)
    ensures MergeEdges(g, es) == g
    decreases |es|
  {
    if |es| > 0 {
      MergeEdgesNoop(g, es[..|es| - 1]);
      MergeEdgeSpec(g, es[|es| - 1]);
    }
  }

  lemma {:induction false} MergeNodesNoop(g: Graph, ns: seq<Node>, h: map<Node, Attrs>)
    requires WF(g)
    requires forall n :: n in ns ==> n in h && n in g.attrs
    ensures MergeNodes(g, ns, h) == g
    decreases |ns|
  {
    if |ns| > 0 {
      MergeNodesNoop(g, ns[..|ns| - 1], h);
    }
  }

  /** Merging the same graph twice adds nothing the second time. */
  lemma LeftMergeIdempotent(g: Graph, h: Graph)
    requires WF(g) && WF(h)
    ensures LeftMerge(LeftMerge(g, h), h) == LeftMerge(g, h)
  {
    var r := LeftMerge(g, h);
    LeftMergeEdges(g, h);
    MergeNodesNoop(r, h.nodes, h.attrs);
    MergeEdgesNoop(r, h.edges);
  }

  /** One iteration of the edge loop as written: `g.edge[u][v]` raises
      `KeyError` when `g` has no `u -> v` edge yet. */
  function MergeEdgeAsWritten(g: Graph, e: Edge): (r: Result<Graph, Error>)
    requires WF(g) && e.u in g.attrs && e.v in g.attrs
    ensures r.Failure? <==> !HasPair(g, e.u, e.v)
    ensures r.Success? ==> r.value == MergeEdge(g, e)
  {
    if HasPair(g, e.u, e.v) then Success(MergeEdge(g, e))
    else Failure(KeyError("g.edge[u][v]"))
  }

  function MergeEdgesAsWritten(g: Graph, es: seq<Edge>): (r: Result<Graph, Error>)
    requires WF(g)
    requires forall e :: e in es ==> e.u in g.attrs && e.v in g.attrs
    ensures r.Success? ==> r.value == MergeEdges(g, es)
    decreases |es|
  {
    if |es| == 0 then Success(g)
    else
      var m :- MergeEdgesAsWritten(g, es[..|es| - 1]);
      MergeEdgeAsWritten(m, es[|es| - 1])
  }

  /** `left_merge(g, h)` as written. */
  function LeftMergeAsWritten(g: Graph, h: Graph): (r: Result<Graph, Error>)
    requires WF(g) && WF(h)
  {
    MergeEdgesAsWritten(MergeNodes(g, h.nodes, h.attrs), h.edges)
  }

  /** Where `left_merge` as written succeeds, it agrees with the corrected
      merge. */
  lemma LeftMergeAsWrittenAgrees(g: Graph, h: Graph)
    requires WF(g) && WF(h)
    ensures LeftMergeAsWritten(g, h).Success? ==> LeftMergeAsWritten(g, h).value == LeftMerge(g, h)
  {
    EndpointsAreNodes(h);
  }

  /** Copying edges never joins a pair that neither `g` nor any copied
      edge joins. */
  lemma NoNewPair(g: Graph, es: seq<Edge>, u: Node, v: Node)
    requires WF(g)
    requires forall e :: e in es ==> e.u in g.attrs && e.v in g.attrs
    requires !HasPair(g, u, v)
    requires forall e :: e in es ==> (e.u, e.v) != (u, v)
    ensures !HasPair(MergeEdges(g, es), u, v)
  {
    var r := MergeEdges(g, es);
    MergeEdgesSpec(g, es);
    forall e' | e' in r.edges
      ensures !(e'.u == u && e'.v == v)
    {
      EdgeOrigin(g, r, es, e');
      if HasEdge(g, e'.u, e'.v, e'.key) {
        assert Edge(e'.u, e'.v, e'.key, EdgeData(g, e'.u, e'.v, e'.key).value) in g.edges;
      }
    }
  }

  /** An edge after copying was either in `g` already or joins the same
      pair as a copied edge. */
  lemma EdgeOrigin(g: Graph, r: Graph, es: seq<Edge>, e': Edge)
    requires WF(r) && e' in r.edges
    requires OnlyCopies(g, r, es)
    ensures HasEdge(g, e'.u, e'.v, e'.key) || exists e :: e in es && e.u == e'.u && e.v == e'.v
  {
    assert HasEdge(r, e'.u, e'.v, e'.key);
  }

  /** As written, merging fails at the first edge of `h` that joins a pair
      neither `g` nor an earlier edge of `h` joins. */
  lemma LeftMergeAsWrittenFailsOnNewPair(g: Graph, h: Graph, i: nat)
    requires WF(g) && WF(h) && i < |h.edges|
    requires !HasPair(g, h.edges[i].u, h.edges[i].v)
    requires forall k :: 0 <= k < i ==> (h.edges[k].u, h.edges[k].v) != (h.edges[i].u, h.edges[i].v)
    ensures LeftMergeAsWritten(g, h).Failure?
  {
    EndpointsAreNodes(h);
    NodesFirst(g, h, MergeNodes(g, h.nodes, h.attrs), i);
  }

  lemma NodesFirst(g: Graph, h: Graph, m: Graph, i: nat)
    requires WF(g) && WF(h) && i < |h.edges|
    requires !HasPair(g, h.edges[i].u, h.edges[i].v)
    requires forall k :: 0 <= k < i ==> (h.edges[k].u, h.edges[k].v) != (h.edges[i].u, h.edges[i].v)
    requires forall e :: e in h.edges ==> e.u in h.attrs && e.v in h.attrs
    requires m == MergeNodes(g, h.nodes, h.attrs)
    ensures LeftMergeAsWritten(g, h).Failure?
  {
    assert m.edges == g.edges;
    EdgeFails(m, h.edges, i);
  }

  lemma EdgeFails(m: Graph, es: seq<Edge>, i: nat)
    requires WF(m) && i < |es|
    requires forall e :: e in es ==> e.u in m.attrs && e.v in m.attrs
    requires !HasPair(m, es[i].u, es[i].v)
    requires forall k :: 0 <= k < i ==> (es[k].u, es[k].v) != (es[i].u, es[i].v)
    ensures MergeEdgesAsWritten(m, es).Failure?
  {
    var upto := es[..i + 1];
    assert upto[..i] == es[..i];
    if MergeEdgesAsWritten(m, es[..i]).Success? {
      NoNewPair(m, es[..i], es[i].u, es[i].v);
    }
    assert MergeEdgesAsWritten(m, upto).Failure?;
    PrefixFailure(m, es, i + 1);
  }

  lemma {:induction false} PrefixFailure(g: Graph, es: seq<Edge>, n: nat)
    requires WF(g) && 0 < n <= |es|
    requires forall e :: e in es ==> e.u in g.attrs && e.v in g.attrs
    requires MergeEdgesAsWritten(g, es[..n]).Failure?
    ensures MergeEdgesAsWritten(g, es).Failure?
    decreases |es| - n
  {
    if n < |es| {
      assert es[..n + 1][..n] == es[..n];
      PrefixFailure(g, es, n + 1);
    } else {
      assert es[..n] == es;
    }
  }

  // The scenario of `test_left_merge`.

  const p1: Node := [PROTEIN, "HGNC", "a"]
  const p2: Node := [PROTEIN, "HGNC", "b"]
  const p3: Node := [PROTEIN, "HGNC", "c"]

  /** An `increases` statement's edge data with the given citation. */
  function Increases(pmid: int, evidence: string): Attrs {
    map[RELATION := Str("increases"),
        "citation" := Dict(map["type" := Str("PubMed"), "reference" := Int(pmid)]),
        "evidence" := Str(evidence),
        ANNOTATIONS := Dict(map[])]
  }

  const Extraneous: Attrs := map["EXTRANEOUS" := Str("MOST DEFINITELY")]

  const MergeLeft: Graph := Graph([p1, p2], map[p1 := Simple(p1), p2 := Simple(p2)],
                                  [Edge(p1, p2, 0, Increases(1, "Evidence 1"))])

  const MergeRight: Graph := Graph([p1, p2, p3],
                                   map[p1 := Simple(p1) + Extraneous, p2 := Simple(p2), p3 := Simple(p3) + Extraneous],
                                   [Edge(p1, p2, 0, Increases(1, "Evidence 1")),
                                    Edge(p1, p2, 1, Increases(2, "Evidence 2")),
                                    Edge(p1, p3, 0, Increases(1, "Evidence 3"))])

  lemma MergeGraphsAreWF()
    ensures WF(MergeLeft) && WF(MergeRight)
  {
  }

  /** As written, the merge stops with `KeyError` at the `p1 -> p3` edge. */
  lemma TestLeftMergeAsWritten()
    ensures LeftMergeAsWritten(MergeLeft, MergeRight).Failure?
  {
    MergeGraphsAreWF();
    LeftMergeAsWrittenFailsOnNewPair(MergeLeft, MergeRight, 2);
  }

  /** Corrected, the merge copies both edges `g` lacked: the second
      `p1 -> p2` statement and the `p1 -> p3` one. */
  lemma TestLeftMerge(g: Graph, h: Graph)
    requires g == MergeLeft && h == MergeRight
    ensures WF(g) && WF(h)
    ensures HasData(LeftMerge(g, h), p1, p2, Increases(2, "Evidence 2"))
    ensures HasData(LeftMerge(g, h), p1, p3, Increases(1, "Evidence 3"))
  {
    MergeGraphsAreWF();
    LeftMergeEdges(g, h);
    var r := LeftMerge(g, h);
    assert Represented(r, h.edges[1]);
    assert Represented(r, h.edges[2]);
  }

  /** The merged graph has the three nodes of `h`. */
  lemma TestLeftMergeNodes(g: Graph, h: Graph)
    requires g == MergeLeft && h == MergeRight
    ensures WF(g) && WF(h)
    ensures LeftMerge(g, h).attrs.Keys == {p1, p2, p3}
  {
    MergeGraphsAreWF();
    LeftMergeNodes(g, h);
  }
}
