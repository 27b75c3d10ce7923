/** `collapse_nodes`, which folds groups of nodes onto a representative,
    and the central-dogma grouping that `collapse_by_central_dogma` feeds
    it. The loops over a value node's edges walk the graph's live
    dictionaries; they are modelled over a snapshot of those edges, which
    agrees with the live walk because a copy lands in a walked dictionary
    only when the key node is the value node itself, and then the source
    raises at once (see `IntoWalked`). The dictionary the source takes is
    given as its items in iteration order, each set as a sequence. */
module Collapse {
  import opened Wrappers
  import opened Seqs
  import opened BelGraph

  // ---------------------------------------------------------------------
  // collapse_nodes

  /** The endpoints of the copy of `e` on `key`: `key -> e.v` for an edge
      out of the collapsed node, `e.u -> key` for an edge into it. */
  function Reattached(key: Node, e: Edge, outgoing: bool): (Node, Node) {
    if outgoing then (key, e.v) else (e.u, key)
  }

  /** `e` has its copy on `key`: a qualified edge with the same data under
      some key, an unqualified edge under its own negative key. */
  ghost predicate Represented(g: Graph, key: Node, e: Edge, outgoing: bool) {
    var (x, y) := Reattached(key, e, outgoing);
    if e.key >= 0 then exists j :: Edge(x, y, j, e.data) in g.edges
    else exists d :: Edge(x, y, e.key, d) in g.edges
  }

  /** `r` is `g` with edges added at `key` and possibly `key` itself. */
  ghost predicate Grows(g: Graph, r: Graph, key: Node) {
    && g.attrs.Keys <= r.attrs.Keys <= g.attrs.Keys + {key}
    && (forall n :: n in g.attrs ==> r.attrs[n] == g.attrs[n])
    && (forall e :: e in g.edges ==> e in r.edges)
    && (forall e :: e in r.edges ==> e in g.edges || e.u == key || e.v == key)
  }

  /** The copy of `e` lands in the key dictionary the source is walking
      (`graph.edge[value_node][successor]`, or `graph.edge[predecessor][value_node]`),
      which happens exactly when the key node is the value node. */
  predicate IntoWalked(key: Node, e: Edge, outgoing: bool) {
    Reattached(key, e, outgoing) == (e.u, e.v)
  }

  /** One iteration of the inner loops of `collapse_nodes`: a qualified edge
      is copied under a fresh key; an unqualified one is re-added with its
      key and only PyBEL's relation for that key, unless the slot is taken.
      A qualified copy into the dictionary being walked grows it, and Python
      raises `RuntimeError` at the walk's next step. Testing the slot indexes
      the key node, which raises `KeyError` when it is absent; a key beyond
      PyBEL's list raises `IndexError`. */
  function MoveEdge(g: Graph, key: Node, e: Edge, outgoing: bool, unqualified: seq<string>): (r: Result<Graph, Error>)
    requires WF(g) && e.u in g.attrs && e.v in g.attrs
    ensures r.Success? ==> WF(r.value)
  {
    var (x, y) := Reattached(key, e, outgoing);
    if e.key >= 0 then
      if IntoWalked(key, e, outgoing) then Failure(RuntimeError(CHANGED_SIZE))
      else Success(AddFreshEdge(g, x, y, e.data))
    else if key !in g.attrs then Failure(KeyError("node"))
    else if HasEdge(g, x, y, e.key) then Success(g)
    else if -1 - e.key >= |unqualified| then Failure(IndexError("unqualified_edges"))
    else Success(AddEdge(g, x, y, e.key, map[RELATION := Str(unqualified[-1 - e.key])]))
  }

  /** A qualified edge fails exactly when its copy lands in the walked
      dictionary, and is otherwise copied; an unqualified one fails exactly
      when the key node is missing, or when its slot is free and the key has
      no PyBEL relation. A copy leaves `e` represented on `key` and only
      grows the graph at `key`. */
  lemma MoveEdgeSpec(g: Graph, key: Node, e: Edge, outgoing: bool, unqualified: seq<string>)
    requires WF(g) && e.u in g.attrs && e.v in g.attrs
    ensures var r := MoveEdge(g, key, e, outgoing, unqualified);
      var (x, y) := Reattached(key, e, outgoing);
      && (r.Failure? <==> if e.key >= 0 then IntoWalked(key, e, outgoing)
                          else key !in g.attrs || (!HasEdge(g, x, y, e.key) && -1 - e.key >= |unqualified|))
      && (r.Failure? ==> r.error == if e.key >= 0 then RuntimeError(CHANGED_SIZE)
                                    else if key !in g.attrs then KeyError("node") else IndexError("unqualified_edges"))
      && (r.Success? ==> Grows(g, r.value, key) && Represented(r.value, key, e, outgoing))
      && (e.key >= 0 && !IntoWalked(key, e, outgoing) ==> r.Success? && r.value.edges == g.edges + [Edge(x, y, FreshKey(g, x, y), e.data)])
      && (r.Success? ==> forall f :: f in r.value.edges ==> f in g.edges || f.key >= 0 || f.key == e.key)
  {
    var (x, y) := Reattached(key, e, outgoing);
    var r := MoveEdge(g, key, e, outgoing, unqualified);
    if e.key >= 0 && IntoWalked(key, e, outgoing) {
    } else if e.key >= 0 {
      FreshEdgeAppends(g, x, y, e.data);
      AppendGrows(g, r.value, key, Edge(x, y, FreshKey(g, x, y), e.data));
    } else if key in g.attrs && HasEdge(g, x, y, e.key) {
      assert Edge(x, y, e.key, EdgeData(g, x, y, e.key).value) in g.edges;
    } else if key in g.attrs && -1 - e.key < |unqualified| {
      var d := map[RELATION := Str(unqualified[-1 - e.key])];
      AddEdgeAppends(g, x, y, e.key, d);
      AppendGrows(g, r.value, key, Edge(x, y, e.key, d));
    }
  }

  lemma AppendGrows(g: Graph, r: Graph, key: Node, f: Edge)
    requires r.edges == g.edges + [f]
    requires f.u == key || f.v == key
    requires r.attrs.Keys == g.attrs.Keys + {f.u, f.v}
    requires if f.u == key then f.v in g.attrs else f.u in g.attrs
    requires forall n :: n in g.attrs ==> r.attrs[n] == g.attrs[n]
    ensures Grows(g, r, key)
  {
  }

  /** The inner loop over a snapshot `es` of the edges at a value node. */
  function MoveEdges(g: Graph, key: Node, es: seq<Edge>, outgoing: bool, unqualified: seq<string>): (r: Result<Graph, Error>)
    requires WF(g)
    requires forall e :: e in es ==> e.u in g.attrs && e.v in g.attrs
    ensures r.Success? ==> WF(r.value) && Grows(g, r.value, key)
    ensures r.Success? ==> forall e :: e in es ==> Represented(r.value, key, e, outgoing)
    decreases |es|
  {
    if |es| == 0 then Success(g)
    else
      MoveEdgeSpec(g, key, es[0], outgoing, unqualified);
      var g1 :- MoveEdge(g, key, es[0], outgoing, unqualified);
      assert forall e :: e in es[1..] ==> e in es;
      var r :- MoveEdges(g1, key, es[1..], outgoing, unqualified);
      assert forall e :: e in es ==> e == es[0] || e in es[1..];
      RepresentedGrows(g1, r, key, es[0], outgoing);
      Success(r)
  }

  lemma RepresentedGrows(g: Graph, r: Graph, key: Node, e: Edge, outgoing: bool)
    requires Represented(g, key, e, outgoing) && Grows(g, r, key)
    ensures Represented(r, key, e, outgoing)
  {
    var (x, y) := Reattached(key, e, outgoing);
    if e.key >= 0 {
      var j :| Edge(x, y, j, e.data) in g.edges;
      assert Edge(x, y, j, e.data) in r.edges;
    } else {
      var d :| Edge(x, y, e.key, d) in g.edges;
      assert Edge(x, y, e.key, d) in r.edges;
    }
  }

  /** With only qualified edges around, moving them fails exactly when one
      of them is copied into the dictionary being walked, and otherwise adds
      only qualified edges. */
  lemma {:induction false} MoveEdgesQualified(g: Graph, key: Node, es: seq<Edge>, outgoing: bool, unqualified: seq<string>)
    requires WF(g)
    requires forall e :: e in es ==> e.u in g.attrs && e.v in g.attrs && e.key >= 0
    requires forall e :: e in g.edges ==> e.key >= 0
    ensures MoveEdges(g, key, es, outgoing, unqualified).Success? <==> forall e :: e in es ==> !IntoWalked(key, e, outgoing)
    ensures MoveEdges(g, key, es, outgoing, unqualified).Failure? ==>
              MoveEdges(g, key, es, outgoing, unqualified).error == RuntimeError(CHANGED_SIZE)
    ensures MoveEdges(g, key, es, outgoing, unqualified).Success? ==>
              forall e :: e in MoveEdges(g, key, es, outgoing, unqualified).value.edges ==> e.key >= 0
    decreases |es|
  {
    if |es| > 0 {
      assert forall e :: e in es <==> e == es[0] || e in es[1..];
      if !IntoWalked(key, es[0], outgoing) {
        var g1 := MoveQualifiedHead(g, key, es, outgoing, unqualified);
        MoveEdgesQualified(g1, key, es[1..], outgoing, unqualified);
      }
    }
  }

  /** One step of the loop over qualified edges that are not copied into the
      walked dictionary: it succeeds with a graph whose edges are still
      qualified, and the rest of the loop runs there. */
  lemma MoveQualifiedHead(g: Graph, key: Node, es: seq<Edge>, outgoing: bool, unqualified: seq<string>) returns (g1: Graph)
    requires WF(g) && |es| > 0 && !IntoWalked(key, es[0], outgoing)
    requires forall e :: e in es ==> e.u in g.attrs && e.v in g.attrs && e.key >= 0
    requires forall e :: e in g.edges ==> e.key >= 0
    ensures WF(g1)
    ensures forall e :: e in es[1..] ==> e.u in g1.attrs && e.v in g1.attrs && e.key >= 0
    ensures forall e :: e in g1.edges ==> e.key >= 0
    ensures MoveEdges(g, key, es, outgoing, unqualified) == MoveEdges(g1, key, es[1..], outgoing, unqualified)
  {
    var (x, y) := Reattached(key, es[0], outgoing);
    g1 := AddFreshEdge(g, x, y, es[0].data);
    assert MoveEdge(g, key, es[0], outgoing, unqualified) == Success(g1);
    FreshEdgeAppends(g, x, y, es[0].data);
    forall f | f in es[1..]
      ensures f.u in g1.attrs && f.v in g1.attrs && f.key >= 0
    {
      assert f in es;
    }
  }

  /** Collapsing a present node in a graph of qualified edges fails exactly
      when it is collapsed onto itself and has an edge, and otherwise keeps
      every edge qualified. */
  lemma CollapseValueQualified(g: Graph, key: Node, v: Node, unqualified: seq<string>)
    requires WF(g) && v in g.attrs
    requires forall e :: e in g.edges ==> e.key >= 0
    ensures CollapseValue(g, key, v, unqualified).Success? <==> key != v || forall e :: e in g.edges ==> e.u != v && e.v != v
    ensures CollapseValue(g, key, v, unqualified).Success? ==>
              forall e :: e in CollapseValue(g, key, v, unqualified).value.edges ==> e.key >= 0
  {
    if key == v {
      CollapseKeyIsValue(g, v, unqualified);
    } else {
      MoveEdgesQualified(g, key, OutEdges(g, v), true, unqualified);
      var g1 := MoveEdges(g, key, OutEdges(g, v), true, unqualified).value;
      MoveEdgesQualified(g1, key, InEdges(g1, v), false, unqualified);
    }
  }

  /** Moving edges that are all in the graph and all copied into the walked
      dictionary: unqualified ones find their slot taken and change nothing,
      and the first qualified one raises. */
  lemma {:induction false} MoveEdgesIntoWalked(g: Graph, key: Node, es: seq<Edge>, outgoing: bool, unqualified: seq<string>)
    requires WF(g) && key in g.attrs
    requires forall e :: e in es ==> e in g.edges && IntoWalked(key, e, outgoing)
    ensures MoveEdges(g, key, es, outgoing, unqualified) ==
              if forall e :: e in es ==> e.key < 0 then Success(g) else Failure(RuntimeError(CHANGED_SIZE))
    decreases |es|
  {
    if |es| > 0 {
      var e := es[0];
      assert forall f :: f in es <==> f == e || f in es[1..];
      if e.key < 0 {
        assert e.u in g.attrs && e.v in g.attrs by { assert e in g.edges; }
        DataOfEdge(g, e);
        assert MoveEdge(g, key, e, outgoing, unqualified) == Success(g);
        MoveEdgesIntoWalked(g, key, es[1..], outgoing, unqualified);
      }
    }
  }

  /** `collapse_nodes` with a node in its own group: the node's unqualified
      edges are left as they are, a qualified one raises `RuntimeError`, and
      otherwise the node is just removed. */
  lemma CollapseKeyIsValue(g: Graph, v: Node, unqualified: seq<string>)
    requires WF(g) && v in g.attrs
    ensures CollapseValue(g, v, v, unqualified).Success? <==>
              forall e :: e in g.edges && (e.u == v || e.v == v) ==> e.key < 0
    ensures CollapseValue(g, v, v, unqualified).Failure? ==>
              CollapseValue(g, v, v, unqualified).error == RuntimeError(CHANGED_SIZE)
    ensures CollapseValue(g, v, v, unqualified).Success? ==>
              CollapseValue(g, v, v, unqualified).value == RemoveNodesFrom(g, {v})
  {
    MoveEdgesIntoWalked(g, v, OutEdges(g, v), true, unqualified);
    MoveEdgesIntoWalked(g, v, InEdges(g, v), false, unqualified);
  }

  /** Collapsing one value node `v` onto `key`: its out-edges, then its
      in-edges (read after the out-edges were copied), are copied onto
      `key`, and `v` is removed; a missing `v` raises `NetworkXError`. */
  function CollapseValue(g: Graph, key: Node, v: Node, unqualified: seq<string>): (r: Result<Graph, Error>)
    requires WF(g)
    ensures v !in g.attrs ==> r == Failure(NetworkXError("node not in graph"))
    ensures r.Success? ==> WF(r.value) && v !in r.value.attrs
  {
    if v !in g.attrs then Failure(NetworkXError("node not in graph"))
    else
      var g1 :- MoveEdges(g, key, OutEdges(g, v), true, unqualified);
      var g2 :- MoveEdges(g1, key, InEdges(g1, v), false, unqualified);
      Success(RemoveNodesFrom(g2, {v}))
  }

  /** The two intermediate graphs of a successful `CollapseValue`. */
  lemma CollapseValueSteps(g: Graph, key: Node, v: Node, unqualified: seq<string>) returns (g1: Graph, g2: Graph)
    requires WF(g) && CollapseValue(g, key, v, unqualified).Success?
    ensures v in g.attrs
    ensures WF(g1) && Grows(g, g1, key)
    ensures forall e :: e in g.edges && e.u == v ==> Represented(g1, key, e, true)
    ensures WF(g2) && Grows(g1, g2, key)
    ensures forall e :: e in g1.edges && e.v == v ==> Represented(g2, key, e, false)
    ensures CollapseValue(g, key, v, unqualified).value == RemoveNodesFrom(g2, {v})
  {
    g1 := MoveEdges(g, key, OutEdges(g, v), true, unqualified).value;
    g2 := MoveEdges(g1, key, InEdges(g1, v), false, unqualified).value;
  }

  /** Collapsing one value node removes `v`, may add `key`, and leaves the
      other nodes' dictionaries alone. */
  lemma CollapseValueNodes(g: Graph, key: Node, v: Node, unqualified: seq<string>)
    requires WF(g) && CollapseValue(g, key, v, unqualified).Success?
    ensures var r := CollapseValue(g, key, v, unqualified).value;
      && r.attrs.Keys <= g.attrs.Keys + {key} - {v}
      && g.attrs.Keys - {v} <= r.attrs.Keys
      && (forall n :: n in g.attrs && n != v ==> r.attrs[n] == g.attrs[n])
  {
    var g1, g2 := CollapseValueSteps(g, key, v, unqualified);
  }

  /** Collapsing one value node keeps the edges not at `v`, and every edge
      it adds touches `key`. */
  lemma CollapseValueEdges(g: Graph, key: Node, v: Node, unqualified: seq<string>)
    requires WF(g) && CollapseValue(g, key, v, unqualified).Success?
    ensures var r := CollapseValue(g, key, v, unqualified).value;
      && (forall e :: e in g.edges && e.u != v && e.v != v ==> e in r.edges)
      && (forall e :: e in r.edges ==> e in g.edges || e.u == key || e.v == key)
  {
    var g1, g2 := CollapseValueSteps(g, key, v, unqualified);
  }

  /** Collapsing `v` onto a different node `key` leaves a copy on `key` of
      every edge between `v` and another node. */
  lemma CollapseValueCopies(g: Graph, key: Node, v: Node, unqualified: seq<string>)
    requires WF(g) && CollapseValue(g, key, v, unqualified).Success? && key != v
    ensures var r := CollapseValue(g, key, v, unqualified).value;
      && (forall e :: e in g.edges && e.u == v && e.v != v ==> Represented(r, key, e, true))
      && (forall e :: e in g.edges && e.v == v && e.u != v ==> Represented(r, key, e, false))
  {
    var r := CollapseValue(g, key, v, unqualified).value;
    forall e | e in g.edges && e.u == v && e.v != v
      ensures Represented(r, key, e, true)
    {
      CollapseValueCopy(g, key, v, unqualified, e, true);
    }
    forall e | e in g.edges && e.v == v && e.u != v
      ensures Represented(r, key, e, false)
    {
      CollapseValueCopy(g, key, v, unqualified, e, false);
    }
  }

  lemma CollapseValueCopy(g: Graph, key: Node, v: Node, unqualified: seq<string>, e: Edge, outgoing: bool)
    requires WF(g) && CollapseValue(g, key, v, unqualified).Success? && key != v
    requires e in g.edges && if outgoing then e.u == v && e.v != v else e.v == v && e.u != v
    ensures Represented(CollapseValue(g, key, v, unqualified).value, key, e, outgoing)
  {
    var g1, g2 := CollapseValueStepsAt(g, key, v, unqualified, e);
    var r := RemoveNodesFrom(g2, {v});
    RemoveNodeKeeps(g2, v);
    if outgoing {
      CopyOutSurvives(g1, g2, r, key, e, v);
    } else {
      RepresentedKept(g2, r, key, e, false, v);
    }
  }

  lemma RemoveNodeKeeps(g: Graph, v: Node)
    ensures forall f :: f in g.edges && f.u != v && f.v != v ==> f in RemoveNodesFrom(g, {v}).edges
  {
  }

  /** `CollapseValueSteps` seen from one edge `e` of `g`. */
  lemma CollapseValueStepsAt(g: Graph, key: Node, v: Node, unqualified: seq<string>, e: Edge) returns (g1: Graph, g2: Graph)
    requires WF(g) && CollapseValue(g, key, v, unqualified).Success? && e in g.edges
    ensures Grows(g1, g2, key)
    ensures e.u == v ==> Represented(g1, key, e, true)
    ensures e.v == v ==> Represented(g2, key, e, false)
    ensures CollapseValue(g, key, v, unqualified).value == RemoveNodesFrom(g2, {v})
  {
    g1 := MoveEdges(g, key, OutEdges(g, v), true, unqualified).value;
    g2 := MoveEdges(g1, key, InEdges(g1, v), false, unqualified).value;
    if e.u == v {
      assert e in OutEdges(g, v);
    }
    if e.v == v {
      assert e in InEdges(g1, v);
    }
  }

  lemma CopyOutSurvives(g1: Graph, g2: Graph, r: Graph, key: Node, e: Edge, v: Node)
    requires Represented(g1, key, e, true) && Grows(g1, g2, key)
    requires forall f :: f in g2.edges && f.u != v && f.v != v ==> f in r.edges
    requires key != v && e.v != v
    ensures Represented(r, key, e, true)
  {
    RepresentedGrows(g1, g2, key, e, true);
    RepresentedKept(g2, r, key, e, true, v);
  }

  /** The pairs `(key node, value node)` in the order the two outer loops
      visit them. */
  function Assignments(groups: seq<(Node, seq<Node>)>): (r: seq<(Node, Node)>)
    ensures forall p :: p in r <==> exists i :: 0 <= i < |groups| && p.0 == groups[i].0 && p.1 in groups[i].1
  {
    if |groups| == 0 then []
    else
      var rest := Assignments(groups[1..]);
      var here := seq(|groups[0].1|, i requires 0 <= i < |groups[0].1| => (groups[0].0, groups[0].1[i]));
      forall p: (Node, Node) | p.0 == groups[0].0 && p.1 in groups[0].1
        ensures p in here
      {
        var i :| 0 <= i < |groups[0].1| && groups[0].1[i] == p.1;
        assert here[i] == p;
      }
      assert forall i :: 0 < i < |groups| ==> groups[i] == groups[1..][i - 1];
      here + rest
  }

  /** The outer loops of `collapse_nodes` over the pairs `ps`. */
  function CollapseAll(g: Graph, ps: seq<(Node, Node)>, unqualified: seq<string>): (r: Result<Graph, Error>)
    requires WF(g)
    ensures r.Success? ==> WF(r.value)
    decreases |ps|
  {
    if |ps| == 0 then Success(g)
    else
      var m :- CollapseAll(g, ps[..|ps| - 1], unqualified);
      CollapseValue(m, ps[|ps| - 1].0, ps[|ps| - 1].1, unqualified)
  }

  /** `collapse_nodes(graph, groups)`: collapse every group, then remove
      every self-loop. */
  function CollapseNodes(g: Graph, groups: seq<(Node, seq<Node>)>, unqualified: seq<string>): (r: Result<Graph, Error>)
    requires WF(g)
    ensures r.Success? ==> WF(r.value)
    ensures r.Success? ==> forall e :: e in r.value.edges ==> e.u != e.v
  {
    var m :- CollapseAll(g, Assignments(groups), unqualified);
    Success(RemoveEdgesWhere(m, (e: Edge) => e.u == e.v))
  }

  predicate IsKey(ps: seq<(Node, Node)>, n: Node) {
    exists i :: 0 <= i < |ps| && ps[i].0 == n
  }

  predicate IsValue(ps: seq<(Node, Node)>, n: Node) {
    exists i :: 0 <= i < |ps| && ps[i].1 == n
  }

  /** No node is both a representative and collapsed, and no node is
      collapsed twice. */
  predicate Separate(ps: seq<(Node, Node)>) {
    && (forall i, j :: 0 <= i < |ps| && 0 <= j < |ps| ==> ps[i].0 != ps[j].1)
    && (forall i, j :: 0 <= i < j < |ps| ==> ps[i].1 != ps[j].1)
  }

  /** Whatever the pairs, collapsing adds no node but representatives. */
  lemma {:induction false} CollapseAllNodesFrom(g: Graph, ps: seq<(Node, Node)>, unqualified: seq<string>)
    requires WF(g) && CollapseAll(g, ps, unqualified).Success?
    ensures forall n :: n in CollapseAll(g, ps, unqualified).value.attrs ==> n in g.attrs || IsKey(ps, n)
    decreases |ps|
  {
    if |ps| > 0 {
      var front := ps[..|ps| - 1];
      var (k, v) := ps[|ps| - 1];
      CollapseAllNodesFrom(g, front, unqualified);
      var m := CollapseAll(g, front, unqualified).value;
      CollapseValueNodes(m, k, v, unqualified);
      forall n | n in CollapseAll(g, ps, unqualified).value.attrs
        ensures n in g.attrs || IsKey(ps, n)
      {
        KeyOrValueStep(ps, n);
      }
    }
  }

  /** For separate pairs, the value nodes are gone and every other node of
      `g` keeps its dictionary; the only nodes added are representatives. */
  lemma {:induction false} CollapseAllNodes(g: Graph, ps: seq<(Node, Node)>, unqualified: seq<string>)
    requires WF(g) && Separate(ps) && CollapseAll(g, ps, unqualified).Success?
    ensures var r := CollapseAll(g, ps, unqualified).value;
      && (forall n :: n in r.attrs ==> (n in g.attrs || IsKey(ps, n)) && !IsValue(ps, n))
      && (forall n :: n in g.attrs && !IsValue(ps, n) ==> n in r.attrs && r.attrs[n] == g.attrs[n])
    decreases |ps|
  {
    if |ps| > 0 {
      var front := ps[..|ps| - 1];
      var (k, v) := ps[|ps| - 1];
      assert Separate(front);
      CollapseAllNodes(g, front, unqualified);
      var m := CollapseAll(g, front, unqualified).value;
      CollapseValueNodes(m, k, v, unqualified);
      var r := CollapseAll(g, ps, unqualified).value;
      assert r == CollapseValue(m, k, v, unqualified).value;
      SeparateStep(ps);
      forall n | n in r.attrs
        ensures (n in g.attrs || IsKey(ps, n)) && !IsValue(ps, n)
      {
        KeyOrValueStep(ps, n);
      }
      forall n | n in g.attrs && !IsValue(ps, n)
        ensures n in r.attrs && r.attrs[n] == g.attrs[n]
      {
        KeyOrValueStep(ps, n);
      }
    }
  }

  /** For separate pairs, the edges away from value nodes stay and every
      edge added touches a representative. */
  lemma {:induction false} CollapseAllEdges(g: Graph, ps: seq<(Node, Node)>, unqualified: seq<string>)
    requires WF(g) && Separate(ps) && CollapseAll(g, ps, unqualified).Success?
    ensures var r := CollapseAll(g, ps, unqualified).value;
      && (forall e :: e in g.edges && !IsValue(ps, e.u) && !IsValue(ps, e.v) ==> e in r.edges)
      && (forall e :: e in r.edges ==> e in g.edges || IsKey(ps, e.u) || IsKey(ps, e.v))
    decreases |ps|
  {
    if |ps| > 0 {
      var front := ps[..|ps| - 1];
      var (k, v) := ps[|ps| - 1];
      assert Separate(front);
      CollapseAllEdges(g, front, unqualified);
      var m := CollapseAll(g, front, unqualified).value;
      CollapseValueEdges(m, k, v, unqualified);
      var r := CollapseAll(g, ps, unqualified).value;
      assert r == CollapseValue(m, k, v, unqualified).value;
      forall e | e in g.edges && !IsValue(ps, e.u) && !IsValue(ps, e.v)
        ensures e in r.edges
      {
        KeyOrValueStep(ps, e.u);
        KeyOrValueStep(ps, e.v);
      }
      forall e | e in r.edges
        ensures e in g.edges || IsKey(ps, e.u) || IsKey(ps, e.v)
      {
        KeyOrValueStep(ps, e.u);
        KeyOrValueStep(ps, e.v);
      }
    }
  }

  /** For separate pairs, every edge between a value node and a node outside
      the groups (other than its own representative) has its copy on the
      representative. */
  lemma CollapseAllCopies(g: Graph, ps: seq<(Node, Node)>, unqualified: seq<string>)
    requires WF(g) && Separate(ps) && CollapseAll(g, ps, unqualified).Success?
    ensures var r := CollapseAll(g, ps, unqualified).value;
      && (forall i, e :: 0 <= i < |ps| && e in g.edges && e.u == ps[i].1 && !IsValue(ps, e.v) && e.v != ps[i].0
            ==> Represented(r, ps[i].0, e, true))
      && (forall i, e :: 0 <= i < |ps| && e in g.edges && e.v == ps[i].1 && !IsValue(ps, e.u) && e.u != ps[i].0
            ==> Represented(r, ps[i].0, e, false))
  {
    var r := CollapseAll(g, ps, unqualified).value;
    forall i, e | 0 <= i < |ps| && e in g.edges && e.u == ps[i].1 && !IsValue(ps, e.v) && e.v != ps[i].0
      ensures Represented(r, ps[i].0, e, true)
    {
      CollapseAllCopy(g, ps, unqualified, i, e, true);
    }
    forall i, e | 0 <= i < |ps| && e in g.edges && e.v == ps[i].1 && !IsValue(ps, e.u) && e.u != ps[i].0
      ensures Represented(r, ps[i].0, e, false)
    {
      CollapseAllCopy(g, ps, unqualified, i, e, false);
    }
  }

  /** The edge `e` between the value node of pair `i` and a node outside the
      groups has its copy on that pair's representative at the end. */
  lemma {:induction false} CollapseAllCopy(g: Graph, ps: seq<(Node, Node)>, unqualified: seq<string>, i: nat, e: Edge, outgoing: bool)
    requires WF(g) && Separate(ps) && CollapseAll(g, ps, unqualified).Success?
    requires i < |ps| && e in g.edges
    requires if outgoing then e.u == ps[i].1 && !IsValue(ps, e.v) && e.v != ps[i].0
             else e.v == ps[i].1 && !IsValue(ps, e.u) && e.u != ps[i].0
    ensures Represented(CollapseAll(g, ps, unqualified).value, ps[i].0, e, outgoing)
    decreases |ps|
  {
    var front := ps[..|ps| - 1];
    var (k, v) := ps[|ps| - 1];
    assert Separate(front);
    var m := CollapseAll(g, front, unqualified).value;
    var r := CollapseAll(g, ps, unqualified).value;
    assert r == CollapseValue(m, k, v, unqualified).value;
    KeyOrValueStep(ps, e.u);
    KeyOrValueStep(ps, e.v);
    SeparateStep(ps);
    if i < |front| {
      assert front[i] == ps[i];
      CollapseAllCopy(g, front, unqualified, i, e, outgoing);
      CollapseValueEdges(m, k, v, unqualified);
      assert ps[i].0 != v;
      RepresentedKept(m, r, ps[i].0, e, outgoing, v);
    } else {
      CollapseAllEdges(g, front, unqualified);
      assert e in m.edges;
      CollapseValueCopy(m, k, v, unqualified, e, outgoing);
    }
  }

  /** The last pair's key is no value, its value no key, and its value is
      not collapsed before. */
  lemma SeparateStep(ps: seq<(Node, Node)>)
    requires Separate(ps) && |ps| > 0
    ensures var front := ps[..|ps| - 1];
      && ps[|ps| - 1].0 != ps[|ps| - 1].1
      && !IsValue(ps, ps[|ps| - 1].0)
      && !IsValue(front, ps[|ps| - 1].1)
      && !IsKey(ps, ps[|ps| - 1].1)
  {
  }

  /** Being a key or a value of `ps` is being one of its front or of its
      last pair. */
  lemma KeyOrValueStep(ps: seq<(Node, Node)>, n: Node)
    requires |ps| > 0
    ensures IsKey(ps, n) <==> IsKey(ps[..|ps| - 1], n) || ps[|ps| - 1].0 == n
    ensures IsValue(ps, n) <==> IsValue(ps[..|ps| - 1], n) || ps[|ps| - 1].1 == n
  {
    var front := ps[..|ps| - 1];
    if IsKey(front, n) {
      var i :| 0 <= i < |front| && front[i].0 == n;
      assert ps[i] == front[i];
    }
    if IsValue(front, n) {
      var i :| 0 <= i < |front| && front[i].1 == n;
      assert ps[i] == front[i];
    }
    if IsKey(ps, n) && ps[|ps| - 1].0 != n {
      var i :| 0 <= i < |ps| && ps[i].0 == n;
      assert front[i] == ps[i];
    }
    if IsValue(ps, n) && ps[|ps| - 1].1 != n {
      var i :| 0 <= i < |ps| && ps[i].1 == n;
      assert front[i] == ps[i];
    }
  }

  /** A copy on `key` survives a later step that keeps the edges not at
      `v`, when neither end of the copy is `v`. */
  lemma RepresentedKept(m: Graph, r: Graph, key: Node, e: Edge, outgoing: bool, v: Node)
    requires Represented(m, key, e, outgoing)
    requires forall f :: f in m.edges && f.u != v && f.v != v ==> f in r.edges
    requires key != v && (if outgoing then e.v else e.u) != v
    ensures Represented(r, key, e, outgoing)
  {
    var (x, y) := Reattached(key, e, outgoing);
    if e.key >= 0 {
      var j :| Edge(x, y, j, e.data) in m.edges;
      assert Edge(x, y, j, e.data) in r.edges;
    } else {
      var d :| Edge(x, y, e.key, d) in m.edges;
      assert Edge(x, y, e.key, d) in r.edges;
    }
  }

  /** A node that fails collapsing: a value node absent from `g` that no
      pair makes a representative is never there at its turn, so the loop
      stops with an error (`NetworkXError` unless an earlier one). */
  lemma {:induction false} CollapseAllMissingValue(g: Graph, ps: seq<(Node, Node)>, unqualified: seq<string>, i: nat)
    requires WF(g) && i < |ps|
    requires ps[i].1 !in g.attrs && !IsKey(ps, ps[i].1)
    ensures CollapseAll(g, ps, unqualified).Failure?
    decreases |ps|
  {
    var front := ps[..|ps| - 1];
    NotKeyOfFront(ps, ps[i].1);
    if i < |ps| - 1 {
      assert front[i] == ps[i];
      CollapseAllMissingValue(g, front, unqualified, i);
      FrontFails(g, ps, unqualified);
    } else {
      MissingAtItsTurn(g, front, unqualified, ps[i].1);
      LastFails(g, ps, unqualified);
    }
  }

  /** A node that is no representative of the pairs is none of a prefix's. */
  lemma NotKeyOfFront(ps: seq<(Node, Node)>, n: Node)
    requires |ps| > 0 && !IsKey(ps, n)
    ensures !IsKey(ps[..|ps| - 1], n)
  {
    KeyOrValueStep(ps, n);
  }

  /** The outer loops stop at the first failing pair. */
  lemma FrontFails(g: Graph, ps: seq<(Node, Node)>, unqualified: seq<string>)
    requires WF(g) && |ps| > 0 && CollapseAll(g, ps[..|ps| - 1], unqualified).Failure?
    ensures CollapseAll(g, ps, unqualified).Failure?
  {
  }

  /** The last pair fails when its collapsed node is gone by its turn. */
  lemma LastFails(g: Graph, ps: seq<(Node, Node)>, unqualified: seq<string>)
    requires WF(g) && |ps| > 0
    requires CollapseAll(g, ps[..|ps| - 1], unqualified).Success? ==>
      ps[|ps| - 1].1 !in CollapseAll(g, ps[..|ps| - 1], unqualified).value.attrs
    ensures CollapseAll(g, ps, unqualified).Failure?
  {
  }

  lemma MissingAtItsTurn(g: Graph, front: seq<(Node, Node)>, unqualified: seq<string>, v: Node)
    requires WF(g) && v !in g.attrs && !IsKey(front, v)
    ensures CollapseAll(g, front, unqualified).Success? ==> v !in CollapseAll(g, front, unqualified).value.attrs
  {
    if CollapseAll(g, front, unqualified).Success? {
      CollapseAllNodesFrom(g, front, unqualified);
    }
  }

  /** Removing self-loops keeps a copy whose ends differ. */
  lemma RepresentedWithoutLoops(m: Graph, key: Node, e: Edge, outgoing: bool)
    requires Represented(m, key, e, outgoing)
    requires key != (if outgoing then e.v else e.u)
    ensures Represented(RemoveEdgesWhere(m, (f: Edge) => f.u == f.v), key, e, outgoing)
  {
    var r := RemoveEdgesWhere(m, (f: Edge) => f.u == f.v);
    var (x, y) := Reattached(key, e, outgoing);
    if e.key >= 0 {
      var j :| Edge(x, y, j, e.data) in m.edges;
      assert Edge(x, y, j, e.data) in r.edges;
    } else {
      var d :| Edge(x, y, e.key, d) in m.edges;
      assert Edge(x, y, e.key, d) in r.edges;
    }
  }

  /** `n` is collapsed by some group. */
  predicate Collapsed(groups: seq<(Node, seq<Node>)>, n: Node) {
    exists i :: 0 <= i < |groups| && n in groups[i].1
  }

  lemma CollapsedIsValue(groups: seq<(Node, seq<Node>)>, n: Node)
    ensures IsValue(Assignments(groups), n) <==> Collapsed(groups, n)
  {
    var ps := Assignments(groups);
    if Collapsed(groups, n) {
      var i :| 0 <= i < |groups| && n in groups[i].1;
      assert (groups[i].0, n) in ps;
    }
    if IsValue(ps, n) {
      var j :| 0 <= j < |ps| && ps[j].1 == n;
      assert ps[j] in ps;
    }
  }

  /** What `collapse_nodes` promises when no node is both a representative
      and collapsed and no node is collapsed twice: no collapsed node and no
      self-loop remains, the other nodes keep their dictionaries, edges away
      from collapsed nodes (self-loops aside) stay, new edges touch a
      representative, and each edge between a collapsed node and an outside
      node has its copy on the representative. */
  lemma CollapseNodesSpec(g: Graph, groups: seq<(Node, seq<Node>)>, unqualified: seq<string>)
    requires WF(g) && Separate(Assignments(groups)) && CollapseNodes(g, groups, unqualified).Success?
    ensures var r := CollapseNodes(g, groups, unqualified).value;
      var ps := Assignments(groups);
      && (forall n :: n in r.attrs ==> (n in g.attrs || IsKey(ps, n)) && !Collapsed(groups, n))
      && (forall n :: n in g.attrs && !Collapsed(groups, n) ==> n in r.attrs && r.attrs[n] == g.attrs[n])
      && (forall e :: e in g.edges && !Collapsed(groups, e.u) && !Collapsed(groups, e.v) && e.u != e.v ==> e in r.edges)
      && (forall e :: e in r.edges ==> e in g.edges || IsKey(ps, e.u) || IsKey(ps, e.v))
      && (forall i, e :: 0 <= i < |ps| && e in g.edges && e.u == ps[i].1 && !Collapsed(groups, e.v) && e.v != ps[i].0
            ==> Represented(r, ps[i].0, e, true))
      && (forall i, e :: 0 <= i < |ps| && e in g.edges && e.v == ps[i].1 && !Collapsed(groups, e.u) && e.u != ps[i].0
            ==> Represented(r, ps[i].0, e, false))
  {
    var ps := Assignments(groups);
    var m := CollapseAll(g, ps, unqualified).value;
    var r := CollapseNodes(g, groups, unqualified).value;
    assert r == RemoveEdgesWhere(m, (f: Edge) => f.u == f.v);
    forall n
      ensures IsValue(ps, n) <==> Collapsed(groups, n)
    {
      CollapsedIsValue(groups, n);
    }
    CollapseAllNodes(g, ps, unqualified);
    CollapseAllEdges(g, ps, unqualified);
    CollapseAllCopies(g, ps, unqualified);
    forall i, e | 0 <= i < |ps| && e in g.edges && e.u == ps[i].1 && !Collapsed(groups, e.v) && e.v != ps[i].0
      ensures Represented(r, ps[i].0, e, true)
    {
      RepresentedWithoutLoops(m, ps[i].0, e, true);
    }
    forall i, e | 0 <= i < |ps| && e in g.edges && e.v == ps[i].1 && !Collapsed(groups, e.u) && e.u != ps[i].0
      ensures Represented(r, ps[i].0, e, false)
    {
      RepresentedWithoutLoops(m, ps[i].0, e, false);
    }
  }

  /** A collapsed node that is not in the graph and represents no group
      makes `collapse_nodes` raise. */
  lemma CollapseNodesMissingValue(g: Graph, groups: seq<(Node, seq<Node>)>, unqualified: seq<string>, n: Node)
    requires WF(g) && Collapsed(groups, n) && n !in g.attrs
    requires forall i :: 0 <= i < |groups| ==> groups[i].0 != n
    ensures CollapseNodes(g, groups, unqualified).Failure?
  {
    var ps := Assignments(groups);
    CollapsedIsValue(groups, n);
    var i :| 0 <= i < |ps| && ps[i].1 == n;
    if IsKey(ps, n) {
      assert false;
    }
    CollapseAllMissingValue(g, ps, unqualified, i);
  }

  /** Every unqualified key among `es` names one of PyBEL's relations. */
  predicate KeysKnown(es: seq<Edge>, unqualified: seq<string>) {
    forall e :: e in es && e.key < 0 ==> -1 - e.key < |unqualified|
  }

  /** Copying edges onto a key node that is present, when their unqualified
      keys are known, fails exactly when a qualified one is copied into the
      dictionary being walked, and adds no unknown key. */
  lemma {:induction false} MoveEdgesSucceeds(g: Graph, key: Node, es: seq<Edge>, outgoing: bool, unqualified: seq<string>)
    requires WF(g) && key in g.attrs
    requires forall e :: e in es ==> e.u in g.attrs && e.v in g.attrs
    requires KeysKnown(es, unqualified) && KeysKnown(g.edges, unqualified)
    ensures MoveEdges(g, key, es, outgoing, unqualified).Success? <==>
              forall e :: e in es && e.key >= 0 ==> !IntoWalked(key, e, outgoing)
    ensures MoveEdges(g, key, es, outgoing, unqualified).Success? ==>
              KeysKnown(MoveEdges(g, key, es, outgoing, unqualified).value.edges, unqualified)
    decreases |es|
  {
    if |es| > 0 {
      assert forall e :: e in es <==> e == es[0] || e in es[1..];
      MoveEdgeSpec(g, key, es[0], outgoing, unqualified);
      if MoveEdge(g, key, es[0], outgoing, unqualified).Success? {
        var g1 := MoveEdge(g, key, es[0], outgoing, unqualified).value;
        MoveEdgesSucceeds(g1, key, es[1..], outgoing, unqualified);
      }
    }
  }

  /** Collapsing a present value node onto a present key node, when the
      graph's unqualified keys are known, fails exactly when the node is its
      own representative and has a qualified edge. */
  lemma CollapseValueSucceeds(g: Graph, key: Node, v: Node, unqualified: seq<string>)
    requires WF(g) && key in g.attrs && v in g.attrs && KeysKnown(g.edges, unqualified)
    ensures CollapseValue(g, key, v, unqualified).Success? <==>
              key != v || forall e :: e in g.edges && (e.u == v || e.v == v) ==> e.key < 0
    ensures CollapseValue(g, key, v, unqualified).Success? ==>
              KeysKnown(CollapseValue(g, key, v, unqualified).value.edges, unqualified)
  {
    if key == v {
      CollapseKeyIsValue(g, v, unqualified);
    } else {
      MoveEdgesSucceeds(g, key, OutEdges(g, v), true, unqualified);
      var g1 := MoveEdges(g, key, OutEdges(g, v), true, unqualified).value;
      MoveEdgesSucceeds(g1, key, InEdges(g1, v), false, unqualified);
    }
  }

  /** When the first pair already fails, the outer loops stop there. */
  lemma {:induction false} CollapseAllFirstFails(g: Graph, ps: seq<(Node, Node)>, unqualified: seq<string>)
    requires WF(g) && |ps| > 0 && CollapseValue(g, ps[0].0, ps[0].1, unqualified).Failure?
    ensures CollapseAll(g, ps, unqualified) == CollapseValue(g, ps[0].0, ps[0].1, unqualified)
    decreases |ps|
  {
    if |ps| > 1 {
      var front := ps[..|ps| - 1];
      assert front[0] == ps[0];
      CollapseAllFirstFails(g, front, unqualified);
    } else {
      assert ps[..0] == [];
    }
  }

  /** `collapse_nodes` raises `RuntimeError` when the first node of the first
      group is its own representative and has a qualified edge, as with
      `{A: {A}}` or `{A: {A, B}}` for a node `A` with an edge `A -> C`. */
  lemma CollapseOwnGroupRaises(g: Graph, v: Node, vs: seq<Node>, e: Edge, unqualified: seq<string>)
    requires WF(g) && v in g.attrs && |vs| > 0 && vs[0] == v
    requires e in g.edges && (e.u == v || e.v == v) && e.key >= 0
    ensures CollapseNodes(g, [(v, vs)], unqualified) == Failure(RuntimeError(CHANGED_SIZE))
  {
    var ps := Assignments([(v, vs)]);
    assert ps[0] == (v, v);
    CollapseKeyIsValue(g, v, unqualified);
    CollapseAllFirstFails(g, ps, unqualified);
  }

  /** For separate pairs whose nodes are all in the graph, the outer loops
      never fail when the graph's unqualified keys are known. */
  lemma {:induction false} CollapseAllSucceeds(g: Graph, ps: seq<(Node, Node)>, unqualified: seq<string>)
    requires WF(g) && Separate(ps) && KeysKnown(g.edges, unqualified) && PairsWithin(ps, g.attrs)
    ensures CollapseAll(g, ps, unqualified).Success?
    ensures KeysKnown(CollapseAll(g, ps, unqualified).value.edges, unqualified)
    decreases |ps|
  {
    if |ps| > 0 {
      var front := ps[..|ps| - 1];
      var (k, v) := ps[|ps| - 1];
      assert Separate(front);
      CollapseAllSucceeds(g, front, unqualified);
      CollapseAllNodes(g, front, unqualified);
      var m := CollapseAll(g, front, unqualified).value;
      SeparateStep(ps);
      KeyOrValueStep(ps, k);
      assert k != v;
      CollapseValueSucceeds(m, k, v, unqualified);
    }
  }

  /** `collapse_nodes` raises nothing when every representative and every
      collapsed node is in the graph, the groups are separate, and every
      unqualified key of the graph names one of PyBEL's relations. */
  lemma CollapseNodesSucceeds(g: Graph, groups: seq<(Node, seq<Node>)>, unqualified: seq<string>)
    requires WF(g) && Separate(Assignments(groups)) && KeysKnown(g.edges, unqualified) && GroupsWithin(groups, g.attrs)
    ensures CollapseNodes(g, groups, unqualified).Success?
  {
    var ps := Assignments(groups);
    AssignedWithin(groups, g.attrs);
    CollapseAllSucceeds(g, ps, unqualified);
    CollapseNodesFrom(g, groups, unqualified, CollapseAll(g, ps, unqualified).value);
  }

  /** Every representative and every collapsed node is a key of `s`. */
  predicate GroupsWithin(groups: seq<(Node, seq<Node>)>, s: map<Node, Attrs>) {
    forall i :: 0 <= i < |groups| ==> groups[i].0 in s && forall x :: x in groups[i].1 ==> x in s
  }

  /** Both nodes of every pair are keys of `s`. */
  predicate PairsWithin(ps: seq<(Node, Node)>, s: map<Node, Attrs>) {
    forall i :: 0 <= i < |ps| ==> ps[i].0 in s && ps[i].1 in s
  }

  /** Every pair the outer loops visit is made of nodes of the groups. */
  lemma AssignedWithin(groups: seq<(Node, seq<Node>)>, s: map<Node, Attrs>)
    requires GroupsWithin(groups, s)
    ensures PairsWithin(Assignments(groups), s)
  {
    var ps := Assignments(groups);
    forall i | 0 <= i < |ps|
      ensures ps[i].0 in s && ps[i].1 in s
    {
      var p := ps[i];
      assert p in ps;
      var j :| 0 <= j < |groups| && p.0 == groups[j].0 && p.1 in groups[j].1;
    }
  }

  // ---------------------------------------------------------------------
  // build_central_dogma_collapse_dict and collapse_by_central_dogma

  /** The nodes grouped under `n` in a dictionary given by its items. */
  function Members(d: seq<(Node, seq<Node>)>, n: Node): set<Node>
    decreases |d|
  {
    if |d| == 0 then {}
    else (if d[0].0 == n then set x | x in d[0].1 else {}) + Members(d[1..], n)
  }

  /** The keys of a dictionary given by its items. */
  function KeysOf(d: seq<(Node, seq<Node>)>): set<Node> {
    set i | 0 <= i < |d| :: d[i].0
  }

  /** `collapse_dict[k].add(x)` on a `defaultdict(set)`: a new key goes
      last; a member already there is not added again. */
  function AddMember(d: seq<(Node, seq<Node>)>, k: Node, x: Node): (r: seq<(Node, seq<Node>)>)
    ensures forall n :: Members(r, n) == Members(d, n) + (if n == k then {x} else {})
    ensures KeysOf(r) == KeysOf(d) + {k}
    decreases |d|
  {
    if |d| == 0 then
      ItemsCons((k, [x]), d);
      assert (set y | y in [x]) == {x};
      [(k, [x])] + d
    else if d[0].0 == k then
      var xs := if x in d[0].1 then d[0].1 else d[0].1 + [x];
      AddToHead(d, k, x, xs);
      [(k, xs)] + d[1..]
    else
      var rest := AddMember(d[1..], k, x);
      AddBehindHead(d, rest, k, x);
      [d[0]] + rest
  }

  /** The first member filed in an empty dictionary starts its only group. */
  lemma AddFirstMember(k: Node, x: Node)
    ensures AddMember([], k, x) == [(k, [x])]
  {
    assert [(k, [x])] + [] == [(k, [x])];
  }

  /** The items of a dictionary, split at the first. */
  lemma ItemsCons(p: (Node, seq<Node>), t: seq<(Node, seq<Node>)>)
    ensures KeysOf([p] + t) == {p.0} + KeysOf(t)
    ensures forall n :: Members([p] + t, n) == (if p.0 == n then set x | x in p.1 else {}) + Members(t, n)
  {
    var r := [p] + t;
    assert r[0] == p && r[1..] == t;
    forall n
      ensures Members(r, n) == (if p.0 == n then set x | x in p.1 else {}) + Members(t, n)
    {
    }
    assert forall i :: 0 < i < |r| ==> r[i] == t[i - 1];
    assert forall i :: 0 <= i < |t| ==> t[i] == r[i + 1];
  }

  /** Adding to the first key's members. */
  lemma AddToHead(d: seq<(Node, seq<Node>)>, k: Node, x: Node, xs: seq<Node>)
    requires |d| > 0 && d[0].0 == k
    requires (set y | y in xs) == (set y | y in d[0].1) + {x}
    ensures forall n :: Members([(k, xs)] + d[1..], n) == Members(d, n) + (if n == k then {x} else {})
    ensures KeysOf([(k, xs)] + d[1..]) == KeysOf(d) + {k}
  {
    assert [d[0]] + d[1..] == d;
    ItemsCons((k, xs), d[1..]);
    ItemsCons(d[0], d[1..]);
    forall n
      ensures Members([(k, xs)] + d[1..], n) == Members(d, n) + (if n == k then {x} else {})
    {
      if n == k {
        assert Members([(k, xs)] + d[1..], n) == (set y | y in xs) + Members(d[1..], n);
        assert Members(d, n) == (set y | y in d[0].1) + Members(d[1..], n);
      }
    }
  }

  /** Adding behind a first key that differs. */
  lemma AddBehindHead(d: seq<(Node, seq<Node>)>, rest: seq<(Node, seq<Node>)>, k: Node, x: Node)
    requires |d| > 0 && d[0].0 != k
    requires forall n :: Members(rest, n) == Members(d[1..], n) + (if n == k then {x} else {})
    requires KeysOf(rest) == KeysOf(d[1..]) + {k}
    ensures forall n :: Members([d[0]] + rest, n) == Members(d, n) + (if n == k then {x} else {})
    ensures KeysOf([d[0]] + rest) == KeysOf(d) + {k}
  {
    ItemsCons(d[0], rest);
    ItemsCons(d[0], d[1..]);
    assert [d[0]] + d[1..] == d;
  }

  /** `d[RELATION] == rel`, read only once the key is known to be there. */
  predicate IsRelation(e: Edge, rel: string)
    requires RELATION in e.data
  {
    e.data[RELATION] == Str(rel)
  }

  predicate AllHaveRelation(es: seq<Edge>) {
    forall e :: e in es ==> RELATION in e.data
  }

  /** The first loop's groups: every `translatedTo` edge puts its RNA in
      its protein's group. */
  function TranslationGroups(es: seq<Edge>): (d: seq<(Node, seq<Node>)>)
    requires AllHaveRelation(es)
    ensures forall n, x :: x in Members(d, n) <==> exists e :: e in es && IsRelation(e, TRANSLATED_TO) && e.u == x && e.v == n
    decreases |es|
  {
    if |es| == 0 then []
    else
      var front := es[..|es| - 1];
      var e := es[|es| - 1];
      assert forall f :: f in es <==> f in front || f == e;
      if IsRelation(e, TRANSLATED_TO) then AddMember(TranslationGroups(front), e.v, e.u) else TranslationGroups(front)
  }

  /** The first loop's `r2p`: `r2p[rna_node] = protein_node` for every
      `translatedTo` edge, a later edge overwriting an earlier one. */
  function RnaProteins(es: seq<Edge>): (r2p: map<Node, Node>)
    requires AllHaveRelation(es)
    ensures forall x :: x in r2p <==> exists e :: e in es && IsRelation(e, TRANSLATED_TO) && e.u == x
    ensures forall x :: x in r2p ==> exists e :: e in es && IsRelation(e, TRANSLATED_TO) && e.u == x && e.v == r2p[x]
    decreases |es|
  {
    if |es| == 0 then map[]
    else
      var front := es[..|es| - 1];
      var e := es[|es| - 1];
      assert forall f :: f in es <==> f in front || f == e;
      if IsRelation(e, TRANSLATED_TO) then RnaProteins(front)[e.u := e.v] else RnaProteins(front)
  }

  /** The first loop of `build_central_dogma_collapse_dict`: the groups of
      translated RNAs, and the map from each translated RNA to a protein. */
  function Translations(es: seq<Edge>): (r: (seq<(Node, seq<Node>)>, map<Node, Node>))
    requires AllHaveRelation(es)
    ensures forall n, x :: x in Members(r.0, n) <==> exists e :: e in es && IsRelation(e, TRANSLATED_TO) && e.u == x && e.v == n
    ensures forall x :: x in r.1 <==> exists e :: e in es && IsRelation(e, TRANSLATED_TO) && e.u == x
    ensures forall x :: x in r.1 ==> exists e :: e in es && IsRelation(e, TRANSLATED_TO) && e.u == x && e.v == r.1[x]
  {
    (TranslationGroups(es), RnaProteins(es))
  }

  /** The first loop over a single edge. */
  lemma TranslationsOfOne(e: Edge)
    requires RELATION in e.data
    ensures AllHaveRelation([e])
    ensures TranslationGroups([e]) == if IsRelation(e, TRANSLATED_TO) then [(e.v, [e.u])] else []
    ensures RnaProteins([e]) == if IsRelation(e, TRANSLATED_TO) then map[e.u := e.v] else map[]
  {
    assert [e][..0] == [];
    AddFirstMember(e.v, e.u);
  }

  /** `e` is a `translatedTo` edge out of `x`. */
  predicate TranslationFrom(e: Edge, x: Node) {
    RELATION in e.data && e.data[RELATION] == Str(TRANSLATED_TO) && e.u == x
  }

  /** `es[i]` is the last `translatedTo` edge out of `x`. */
  predicate LastTranslationAt(es: seq<Edge>, x: Node, i: int) {
    && 0 <= i < |es| && TranslationFrom(es[i], x)
    && forall j :: i < j < |es| ==> !TranslationFrom(es[j], x)
  }

  /** The protein recorded for a translated RNA is the target of its last
      `translatedTo` edge, since `r2p[rna_node] = protein_node` overwrites
      what earlier edges recorded. */
  lemma {:induction false} TranslationsKeepLast(es: seq<Edge>, x: Node) returns (i: int)
    requires AllHaveRelation(es) && x in RnaProteins(es)
    ensures LastTranslationAt(es, x, i) && es[i].v == RnaProteins(es)[x]
  {
    var front := es[..|es| - 1];
    RnaProteinsStep(es);
    if TranslationFrom(es[|es| - 1], x) {
      i := |es| - 1;
    } else {
      i := TranslationsKeepLast(front, x);
      LastTranslationExtends(es, x, i);
    }
  }

  lemma RnaProteinsStep(es: seq<Edge>)
    requires AllHaveRelation(es) && |es| > 0
    ensures AllHaveRelation(es[..|es| - 1])
    ensures RnaProteins(es) == if TranslationFrom(es[|es| - 1], es[|es| - 1].u)
                               then RnaProteins(es[..|es| - 1])[es[|es| - 1].u := es[|es| - 1].v]
                               else RnaProteins(es[..|es| - 1])
  {
    assert forall f :: f in es[..|es| - 1] ==> f in es;
  }

  lemma LastTranslationExtends(es: seq<Edge>, x: Node, i: int)
    requires |es| > 0 && LastTranslationAt(es[..|es| - 1], x, i)
    requires !TranslationFrom(es[|es| - 1], x)
    ensures LastTranslationAt(es, x, i)
  {
    assert forall j :: i < j < |es| - 1 ==> es[j] == es[..|es| - 1][j];
  }

  /** Where the second loop files a gene transcribed to `rna`: under the
      RNA's protein when it is translated, under the RNA otherwise. */
  function GroupOf(r2p: map<Node, Node>, rna: Node): Node {
    if rna in r2p then r2p[rna] else rna
  }

  /** The second loop: every `transcribedTo` edge puts its gene in the
      group `GroupOf` chooses. */
  function Transcriptions(d: seq<(Node, seq<Node>)>, r2p: map<Node, Node>, es: seq<Edge>): (r: seq<(Node, seq<Node>)>)
    requires AllHaveRelation(es)
    ensures forall n, x :: x in Members(r, n) <==>
              x in Members(d, n) || exists e :: e in es && IsRelation(e, TRANSCRIBED_TO) && e.u == x && GroupOf(r2p, e.v) == n
    decreases |es|
  {
    if |es| == 0 then d
    else
      var front := es[..|es| - 1];
      var e := es[|es| - 1];
      assert forall f :: f in es <==> f in front || f == e;
      var r := Transcriptions(d, r2p, front);
      if IsRelation(e, TRANSCRIBED_TO) then AddMember(r, GroupOf(r2p, e.v), e.u) else r
  }

  /** `build_central_dogma_collapse_dict(graph)`: `KeyError` when an edge has
      no relation, since the first loop reads every edge's. */
  function BuildCentralDogmaCollapseDict(g: Graph): (r: Result<seq<(Node, seq<Node>)>, Error>)
    ensures r.Failure? <==> !AllHaveRelation(g.edges)
    ensures r.Failure? ==> r.error == KeyError(RELATION)
    ensures r.Success? ==> forall n, x :: x in Members(r.value, n) <==>
              || (exists e :: e in g.edges && IsRelation(e, TRANSLATED_TO) && e.u == x && e.v == n)
              || (exists e :: e in g.edges && IsRelation(e, TRANSCRIBED_TO) && e.u == x
                                           && GroupOf(Translations(g.edges).1, e.v) == n)
  {
    if !AllHaveRelation(g.edges) then Failure(KeyError(RELATION))
    else
      var (d, r2p) := Translations(g.edges);
      Success(Transcriptions(d, r2p, g.edges))
  }

  /** `collapse_by_central_dogma(graph)`. */
  function CollapseByCentralDogma(g: Graph, unqualified: seq<string>): (r: Result<Graph, Error>)
    requires WF(g)
    ensures !AllHaveRelation(g.edges) ==> r == Failure(KeyError(RELATION))
    ensures r.Success? ==> WF(r.value) && forall e :: e in r.value.edges ==> e.u != e.v
  {
    var d :- BuildCentralDogmaCollapseDict(g);
    CollapseNodes(g, d, unqualified)
  }

  // The scenario of `test_collapse_1`: `p2` is collapsed onto `p1`.

  const q1: Node := [PROTEIN, "HGNC", "1"]
  const q2: Node := [PROTEIN, "HGNC", "2"]
  const q3: Node := [PROTEIN, "HGNC", "3"]

  function Relation(r: string): Attrs {
    map[RELATION := Str(r)]
  }

  const CollapseGraph: Graph :=
    Graph([q1, q2, q3], map[q1 := Simple(q1), q2 := Simple(q2), q3 := Simple(q3)],
          [Edge(q1, q3, 0, Relation("increases")), Edge(q2, q3, 0, Relation("directlyIncreases"))])

  lemma CollapseGraphIsWF()
    ensures WF(CollapseGraph)
  {
  }

  /** Collapsing one present node in a graph of qualified edges fails
      exactly when the node is its own representative and has an edge. */
  lemma CollapseOneQualified(g: Graph, key: Node, v: Node, unqualified: seq<string>)
    requires WF(g) && v in g.attrs
    requires forall e :: e in g.edges ==> e.key >= 0
    ensures CollapseNodes(g, [(key, [v])], unqualified).Success? <==>
              key != v || forall e :: e in g.edges ==> e.u != v && e.v != v
  {
    var groups := [(key, [v])];
    assert groups[1..] == [];
    assert Assignments(groups[1..]) == [];
    var ps := Assignments(groups);
    assert |ps| == 1 && ps[0] == (key, v);
    assert ps == [(key, v)];
    assert ps[..0] == [];
    CollapseValueQualified(g, key, v, unqualified);
    assert CollapseAll(g, ps, unqualified) == CollapseValue(g, key, v, unqualified);
  }

  lemma TestCollapseSucceeds(g: Graph, unqualified: seq<string>)
    requires g == CollapseGraph
    ensures WF(g)
    ensures CollapseNodes(g, [(q1, [q2])], unqualified).Success?
  {
    CollapseGraphIsWF();
    assert forall e :: e in g.edges ==> e.key >= 0;
    CollapseOneQualified(g, q1, q2, unqualified);
  }

  /** Collapsing one node `v` onto another present node removes exactly `v`. */
  lemma CollapseOneNodes(g: Graph, key: Node, v: Node, unqualified: seq<string>)
    requires WF(g) && key in g.attrs && key != v
    requires CollapseNodes(g, [(key, [v])], unqualified).Success?
    ensures CollapseNodes(g, [(key, [v])], unqualified).value.attrs.Keys == g.attrs.Keys - {v}
  {
    var groups := [(key, [v])];
    assert groups[1..] == [];
    assert Assignments(groups[1..]) == [];
    var ps := Assignments(groups);
    assert |ps| == 1 && ps[0] == (key, v);
    assert Separate(ps);
    CollapseNodesSpec(g, groups, unqualified);
    var r := CollapseNodes(g, groups, unqualified).value;
    forall n
      ensures Collapsed(groups, n) <==> n == v
    {
      if n == v {
        assert n in groups[0].1;
      }
    }
    forall n | n in r.attrs
      ensures n in g.attrs
    {
      if IsKey(ps, n) {
        assert n == key;
      }
    }
  }

  /** Collapsing `p2` onto `p1` leaves the nodes `p1` and `p3`. */
  lemma TestCollapseNodes(g: Graph, unqualified: seq<string>)
    requires g == CollapseGraph
    ensures WF(g)
    ensures CollapseNodes(g, [(q1, [q2])], unqualified).Success?
    ensures CollapseNodes(g, [(q1, [q2])], unqualified).value.attrs.Keys == {q1, q3}
  {
    TestCollapseSucceeds(g, unqualified);
    CollapseGraphKeys();
    CollapseOneNodes(g, q1, q2, unqualified);
  }

  /** The test graph's nodes, and what is left of them without `p2`. */
  lemma CollapseGraphKeys()
    ensures CollapseGraph.attrs.Keys == {q1, q2, q3} && q1 != q2
    ensures {q1, q2, q3} - {q2} == {q1, q3}
  {
    assert q2[2] != q1[2] && q2[2] != q3[2];
  }

  /** It keeps the `p1 -> p3` edge and gives `p1` a copy of `p2 -> p3`. */
  lemma TestCollapseEdges(g: Graph, unqualified: seq<string>)
    requires g == CollapseGraph
    ensures WF(g)
    ensures CollapseNodes(g, [(q1, [q2])], unqualified).Success?
    ensures var r := CollapseNodes(g, [(q1, [q2])], unqualified).value;
      && Edge(q1, q3, 0, Relation("increases")) in r.edges
      && (exists j :: Edge(q1, q3, j, Relation("directlyIncreases")) in r.edges)
  {
    TestCollapseSucceeds(g, unqualified);
    var groups := [(q1, [q2])];
    CollapseNodesSpec(g, groups, unqualified);
    var r := CollapseNodes(g, groups, unqualified).value;
    assert !Collapsed(groups, q1) && !Collapsed(groups, q3);
    assert Represented(r, q1, g.edges[1], true);
  }

  /** Collapsing a node whose only edge is one qualified outgoing edge
      keeps every other edge that is not a self-loop, drops the node's own
      edge, and adds its copy on the key node under a fresh key. */
  lemma CollapseOneCopy(g: Graph, k: Node, v: Node, e: Edge, unqualified: seq<string>)
    requires WF(g) && k in g.attrs && v in g.attrs && k != v
    requires e in g.edges && e.u == v && e.key >= 0 && e.v != v && e.v != k
    requires forall f :: f in g.edges && f.u == v ==> f == e
    requires forall f :: f in g.edges ==> f.v != v
    ensures CollapseNodes(g, [(k, [v])], unqualified).Success?
    ensures forall f :: f in CollapseNodes(g, [(k, [v])], unqualified).value.edges <==>
      (f in g.edges && f.u != v && f.u != f.v) || f == Edge(k, e.v, FreshKey(g, k, e.v), e.data)
  {
    var copy := Edge(k, e.v, FreshKey(g, k, e.v), e.data);
    OneCopyMoves(g, k, v, e, unqualified);
    var m := CollapseAll(g, Assignments([(k, [v])]), unqualified).value;
    CollapseNodesFrom(g, [(k, [v])], unqualified, m);
    var r := CollapseNodes(g, [(k, [v])], unqualified).value;
    OneCopyEdges(g.edges, m.edges, r.edges, v, copy);
  }

  /** The edge sets of the steps of that collapse, as sets. */
  lemma OneCopyEdges(es: seq<Edge>, ms: seq<Edge>, rs: seq<Edge>, v: Node, copy: Edge)
    requires forall f :: f in ms <==> (f in es || f == copy) && f.u != v && f.v != v
    requires forall f :: f in rs <==> f in ms && f.u != f.v
    requires forall f :: f in es ==> f.v != v
    requires copy.u != v && copy.v != v && copy.u != copy.v
    ensures forall f :: f in rs <==> (f in es && f.u != v && f.u != f.v) || f == copy
  {
  }

  /** After the outer loops, `collapse_nodes` only drops the self-loops. */
  lemma CollapseNodesFrom(g: Graph, groups: seq<(Node, seq<Node>)>, unqualified: seq<string>, m: Graph)
    requires WF(g) && CollapseAll(g, Assignments(groups), unqualified) == Success(m)
    ensures CollapseNodes(g, groups, unqualified).Success?
    ensures forall f :: f in CollapseNodes(g, groups, unqualified).value.edges <==> f in m.edges && f.u != f.v
  {
    assert CollapseNodes(g, groups, unqualified) == Success(RemoveEdgesWhere(m, (f: Edge) => f.u == f.v));
  }

  /** The two inner loops of that collapse: the one edge is copied, and no
      edge comes into the node. */
  lemma OneCopyMoves(g: Graph, k: Node, v: Node, e: Edge, unqualified: seq<string>)
    requires WF(g) && k in g.attrs && v in g.attrs && k != v
    requires e in g.edges && e.u == v && e.key >= 0 && e.v != v && e.v != k
    requires forall f :: f in g.edges && f.u == v ==> f == e
    requires forall f :: f in g.edges ==> f.v != v
    ensures CollapseAll(g, Assignments([(k, [v])]), unqualified).Success?
    ensures forall f :: f in CollapseAll(g, Assignments([(k, [v])]), unqualified).value.edges <==>
      (f in g.edges || f == Edge(k, e.v, FreshKey(g, k, e.v), e.data)) && f.u != v && f.v != v
  {
    CollapseOnePair(g, k, v, unqualified);
    var g1 := OneCopyOut(g, k, v, e, unqualified);
    NoInEdges(g1, v);
    CollapseValueUnfold(g, k, v, unqualified, g1);
    RemovedMembers(g1, v, g.edges, Edge(k, e.v, FreshKey(g, k, e.v), e.data));
  }

  /** A dictionary of one group of one node is a single collapse. */
  lemma CollapseOnePair(g: Graph, k: Node, v: Node, unqualified: seq<string>)
    requires WF(g)
    ensures CollapseAll(g, Assignments([(k, [v])]), unqualified) == CollapseValue(g, k, v, unqualified)
  {
    var groups := [(k, [v])];
    assert groups[1..] == [];
    assert Assignments(groups[1..]) == [];
    var ps := Assignments(groups);
    assert ps == [(k, v)];
    assert ps[..0] == [];
  }

  /** A collapse whose two inner loops end in `g2` removes the node from it. */
  lemma CollapseValueUnfold(g: Graph, k: Node, v: Node, unqualified: seq<string>, g2: Graph)
    requires WF(g) && v in g.attrs
    requires MoveEdges(g, k, OutEdges(g, v), true, unqualified) == Success(g2)
    requires InEdges(g2, v) == []
    ensures CollapseValue(g, k, v, unqualified) == Success(RemoveNodesFrom(g2, {v}))
  {
  }

  /** A node no edge points to has no predecessors. */
  lemma NoInEdges(g: Graph, v: Node)
    requires forall f :: f in g.edges ==> f.v != v
    ensures InEdges(g, v) == []
  {
    HeadMember(InEdges(g, v));
  }

  /** The edges left when `v` goes from a graph that gained one edge. */
  lemma RemovedMembers(g1: Graph, v: Node, es: seq<Edge>, x: Edge)
    requires g1.edges == es + [x]
    ensures forall f :: f in RemoveNodesFrom(g1, {v}).edges <==> (f in es || f == x) && f.u != v && f.v != v
  {
  }

  /** The loop over the node's successors copies its one edge. */
  lemma OneCopyOut(g: Graph, k: Node, v: Node, e: Edge, unqualified: seq<string>) returns (g1: Graph)
    requires WF(g) && e in g.edges && e.u == v && e.key >= 0 && k != v
    requires forall f :: f in g.edges && f.u == v ==> f == e
    ensures WF(g1)
    ensures MoveEdges(g, k, OutEdges(g, v), true, unqualified) == Success(g1)
    ensures g1.edges == g.edges + [Edge(k, e.v, FreshKey(g, k, e.v), e.data)]
  {
    SlotsDistinct(g.edges);
    FilterKeepsDistinct(g.edges, (f: Edge) => f.u == v);
    OnlyMember(OutEdges(g, v), e);
    assert !IntoWalked(k, e, true);
    g1 := AddFreshEdge(g, k, e.v, e.data);
    assert MoveEdge(g, k, e, true, unqualified) == Success(g1);
    FreshEdgeAppends(g, k, e.v, e.data);
    assert [e][1..] == [];
  }

  /** The collapsed graph has exactly two edges: `p1 -> p3` as it was and
      the copy of `p2 -> p3` under a fresh key. */
  lemma TestCollapseEdgeCount(g: Graph, unqualified: seq<string>)
    requires g == CollapseGraph
    ensures WF(g)
    ensures CollapseNodes(g, [(q1, [q2])], unqualified).Success?
    ensures |CollapseNodes(g, [(q1, [q2])], unqualified).value.edges| == 2
  {
    CollapseGraphIsWF();
    TwoEdgeCollapse(g, q1, q2, g.edges[0], g.edges[1], unqualified);
  }

  /** In a graph of two edges, collapsing the source of one of them, which
      nothing points to, leaves two edges: the other one and the copy. */
  lemma TwoEdgeCollapse(g: Graph, k: Node, v: Node, e1: Edge, e2: Edge, unqualified: seq<string>)
    requires WF(g) && k in g.attrs && v in g.attrs && k != v
    requires g.edges == [e1, e2]
    requires e1.u != v && e1.v != v && e1.u != e1.v
    requires e2.u == v && e2.key >= 0 && e2.v != v && e2.v != k
    ensures CollapseNodes(g, [(k, [v])], unqualified).Success?
    ensures |CollapseNodes(g, [(k, [v])], unqualified).value.edges| == 2
  {
    CollapseOneCopy(g, k, v, e2, unqualified);
    var copy := Edge(k, e2.v, FreshKey(g, k, e2.v), e2.data);
    var r := CollapseNodes(g, [(k, [v])], unqualified).value;
    assert forall f :: f in r.edges <==> f == e1 || f == copy;
    assert copy != e1 by {
      DataOfEdge(g, e1);
    }
    SlotsDistinct(r.edges);
    PairOfMembers(r.edges, e1, copy);
  }

  // The scenarios of `test_collapse_dogma_*`: a translated RNA, a gene
  // transcribed to a translated RNA, and a lone transcribed gene all fold
  // into one node with no edges. Each edge has its unqualified key, given
  // as a negative number naming one of PyBEL's relations.

  const rna1: Node := [RNA, "HGNC", "1"]
  const gene1: Node := [GENE, "HGNC", "1"]

  /** A graph of the given edges whose three-part nodes carry their simple
      data (and any other node none). */
  function SimpleGraph(ns: seq<Node>, es: seq<Edge>): Graph {
    Graph(ns, map n | n in ns :: if |n| == 3 then Simple(n) else map[], es)
  }

  /** One group whose key is not among its distinct members assigns
      without overlap. */
  lemma OneGroupSeparate(groups: seq<(Node, seq<Node>)>, n: Node)
    requires |groups| == 1 && groups[0].0 == n && n !in groups[0].1 && Distinct(groups[0].1)
    ensures Separate(Assignments(groups))
  {
    var ps := Assignments(groups);
    assert groups[1..] == [];
    assert Assignments(groups[1..]) == [];
    assert |ps| == |groups[0].1| && forall i :: 0 <= i < |ps| ==> ps[i] == (n, groups[0].1[i]);
  }

  /** Collapsing one group into its key leaves the key as the only node. */
  lemma OneGroupSurvivor(g: Graph, groups: seq<(Node, seq<Node>)>, unqualified: seq<string>, n: Node)
    requires WF(g) && |groups| == 1 && groups[0].0 == n && n !in groups[0].1
    requires g.attrs.Keys == {n} + set x | x in groups[0].1
    requires Separate(Assignments(groups)) && CollapseNodes(g, groups, unqualified).Success?
    ensures CollapseNodes(g, groups, unqualified).value.attrs.Keys == {n}
  {
    var ps := Assignments(groups);
    OneGroupKeys(groups);
    assert forall x :: x in groups[0].1 ==> Collapsed(groups, x);
    CollapseNodesAttrs(g, groups, unqualified);
    var r := CollapseNodes(g, groups, unqualified).value;
    assert !Collapsed(groups, n);
    assert n in r.attrs;
  }

  /** The node part of CollapseNodesSpec. */
  lemma CollapseNodesAttrs(g: Graph, groups: seq<(Node, seq<Node>)>, unqualified: seq<string>)
    requires WF(g) && Separate(Assignments(groups)) && CollapseNodes(g, groups, unqualified).Success?
    ensures forall n :: n in CollapseNodes(g, groups, unqualified).value.attrs ==>
              (n in g.attrs || IsKey(Assignments(groups), n)) && !Collapsed(groups, n)
    ensures forall n :: n in g.attrs && !Collapsed(groups, n) ==> n in CollapseNodes(g, groups, unqualified).value.attrs
  {
    CollapseNodesSpec(g, groups, unqualified);
  }

  /** With one group, its key is the only key the assignments have. */
  lemma OneGroupKeys(groups: seq<(Node, seq<Node>)>)
    requires |groups| == 1
    ensures forall x :: IsKey(Assignments(groups), x) ==> x == groups[0].0
  {
    var ps := Assignments(groups);
    forall x | IsKey(ps, x)
      ensures x == groups[0].0
    {
      var i :| 0 <= i < |ps| && ps[i].0 == x;
      assert ps[i] in ps;
    }
  }

  lemma OnlySurvivor(r: Graph, n: Node)
    requires WF(r) && r.attrs.Keys == {n}
    requires forall e :: e in r.edges ==> e.u != e.v
    ensures r.edges == []
  {
    HeadMember(r.edges);
  }

  /** A simple graph over distinct nodes whose edges join listed nodes at
      distinct slots is well formed, with exactly those nodes. */
  lemma SimpleGraphWF(ns: seq<Node>, es: seq<Edge>)
    requires Distinct(ns) && UniqueSlots(es)
    requires forall e :: e in es ==> e.u in ns && e.v in ns
    ensures WF(SimpleGraph(ns, es))
    ensures SimpleGraph(ns, es).attrs.Keys == set n | n in ns
  {
  }

  /** `r(1) -> p(1)` by translation collapses to `p(1)` alone. */
  lemma TestCollapseDogmaTranslation(kt: int, unqualified: seq<string>)
    requires kt < 0 && -1 - kt < |unqualified|
    ensures var g := SimpleGraph([q1, rna1], [Edge(rna1, q1, kt, Relation(TRANSLATED_TO))]);
      && WF(g)
      && CollapseByCentralDogma(g, unqualified).Success?
      && CollapseByCentralDogma(g, unqualified).value.attrs.Keys == {q1}
      && CollapseByCentralDogma(g, unqualified).value.edges == []
  {
    var ns := [q1, rna1];
    var e := Edge(rna1, q1, kt, Relation(TRANSLATED_TO));
    assert Distinct(ns) && (set n | n in ns) == {q1, rna1};
    SimpleGraphWF(ns, [e]);
    DogmaTranslation(SimpleGraph(ns, [e]), unqualified);
  }

  /** Any graph of a protein and its RNA, joined by one translation edge,
      collapses to the protein alone. */
  lemma DogmaTranslation(g: Graph, unqualified: seq<string>)
    requires WF(g) && g.attrs.Keys == {q1, rna1} && KeysKnown(g.edges, unqualified)
    requires |g.edges| == 1 && g.edges[0].u == rna1 && g.edges[0].v == q1 && g.edges[0].data == Relation(TRANSLATED_TO)
    ensures CollapseByCentralDogma(g, unqualified).Success?
    ensures CollapseByCentralDogma(g, unqualified).value.attrs.Keys == {q1}
    ensures CollapseByCentralDogma(g, unqualified).value.edges == []
  {
    var e := g.edges[0];
    var groups := [(q1, [rna1])];
    assert g.edges == [e];
    assert AllHaveRelation([e]);
    assert [e][..0] == [];
    assert IsRelation(e, TRANSLATED_TO) && !IsRelation(e, TRANSCRIBED_TO);
    AddFirstMember(q1, rna1);
    TranslationsOfOne(e);
    assert Translations([e]) == (groups, map[rna1 := q1]);
    assert Transcriptions(groups, map[rna1 := q1], [e]) == groups;
    assert BuildCentralDogmaCollapseDict(g) == Success(groups);
    DogmaCollapse(g, groups, unqualified, q1);
  }

  /** The dictionary of a `translatedTo` self-loop followed by an edge of
      another relation: the node alone in its own group. */
  lemma SelfTranslationDict(e0: Edge, e1: Edge)
    requires RELATION in e0.data && RELATION in e1.data
    requires IsRelation(e0, TRANSLATED_TO) && e0.u == e0.v
    requires !IsRelation(e1, TRANSLATED_TO) && !IsRelation(e1, TRANSCRIBED_TO)
    ensures AllHaveRelation([e0, e1])
    ensures BuildCentralDogmaCollapseDict(Graph([], map[], [e0, e1])) == Success([(e0.v, [e0.u])])
  {
    var es := [e0, e1];
    var d := [(e0.v, [e0.u])];
    assert es[..1] == [e0] && [e0][..0] == [];
    TranslationsOfOne(e0);
    assert TranslationGroups(es) == d;
    var r2p := RnaProteins(es);
    assert Transcriptions(d, r2p, []) == d;
    assert Transcriptions(d, r2p, [e0]) == d;
    assert Transcriptions(d, r2p, es) == d;
  }

  /** A protein translated from itself is in its own group, so with a
      qualified edge `p(1) -> p(3)` as well, `collapse_by_central_dogma`
      raises `RuntimeError`. */
  lemma DogmaSelfTranslationRaises(kt: int, unqualified: seq<string>)
    requires kt < 0
    ensures var g := SimpleGraph([q1, q3], [Edge(q1, q1, kt, Relation(TRANSLATED_TO)), Edge(q1, q3, 0, Relation("increases"))]);
      && WF(g)
      && CollapseByCentralDogma(g, unqualified) == Failure(RuntimeError(CHANGED_SIZE))
  {
    var ns := [q1, q3];
    var e0 := Edge(q1, q1, kt, Relation(TRANSLATED_TO));
    var e1 := Edge(q1, q3, 0, Relation("increases"));
    var es := [e0, e1];
    assert Distinct(ns) && (set n | n in ns) == {q1, q3};
    SimpleGraphWF(ns, es);
    var g := SimpleGraph(ns, es);
    var groups := [(q1, [q1])];
    assert Relation("increases")[RELATION] == Str("increases");
    SelfTranslationDict(e0, e1);
    assert BuildCentralDogmaCollapseDict(g) == Success(groups);
    CollapseOwnGroupRaises(g, q1, [q1], e1, unqualified);
  }

  /** `g(1) -> r(1) -> p(1)` collapses to `p(1)` alone: the gene joins the
      protein's group because its RNA is translated. */
  lemma TestCollapseDogmaChain(kt: int, kc: int, unqualified: seq<string>)
    requires kt < 0 && -1 - kt < |unqualified| && kc < 0 && -1 - kc < |unqualified|
    ensures var g := SimpleGraph([q1, rna1, gene1],
                                 [Edge(rna1, q1, kt, Relation(TRANSLATED_TO)), Edge(gene1, rna1, kc, Relation(TRANSCRIBED_TO))]);
      && WF(g)
      && CollapseByCentralDogma(g, unqualified).Success?
      && CollapseByCentralDogma(g, unqualified).value.attrs.Keys == {q1}
      && CollapseByCentralDogma(g, unqualified).value.edges == []
  {
    var ns := [q1, rna1, gene1];
    var es := [Edge(rna1, q1, kt, Relation(TRANSLATED_TO)), Edge(gene1, rna1, kc, Relation(TRANSCRIBED_TO))];
    assert Distinct(ns) && (set n | n in ns) == {q1, rna1, gene1};
    SimpleGraphWF(ns, es);
    DogmaChain(SimpleGraph(ns, es), unqualified);
  }

  /** The chain's dictionary: both the RNA and the gene under the protein. */
  lemma ChainDict(es: seq<Edge>)
    requires |es| == 2 && es[0].u == rna1 && es[0].v == q1 && es[0].data == Relation(TRANSLATED_TO)
    requires es[1].u == gene1 && es[1].v == rna1 && es[1].data == Relation(TRANSCRIBED_TO)
    ensures AllHaveRelation(es)
    ensures Transcriptions(Translations(es).0, Translations(es).1, es) == [(q1, [rna1, gene1])]
  {
    var groups := [(q1, [rna1, gene1])];
    var d := [(q1, [rna1])];
    var r2p := map[rna1 := q1];
    var e1, e2 := es[0], es[1];
    assert es == [e1, e2];
    assert es[..1] == [e1];
    assert [e1][..0] == [];
    assert IsRelation(e1, TRANSLATED_TO) && !IsRelation(e2, TRANSLATED_TO);
    assert !IsRelation(e1, TRANSCRIBED_TO) && IsRelation(e2, TRANSCRIBED_TO);
    assert Translations(es) == (d, r2p) by {
      AddFirstMember(q1, rna1);
      TranslationsOfOne(e1);
      assert TranslationGroups(es) == d && RnaProteins(es) == r2p;
    }
    assert Transcriptions(d, r2p, es) == groups by {
      assert Transcriptions(d, r2p, [e1]) == d;
      assert GroupOf(r2p, rna1) == q1;
      assert AddMember(d, q1, gene1) == groups by {
        assert gene1 != rna1 && gene1 !in [rna1];
        assert d[1..] == [];
        assert [rna1] + [gene1] == [rna1, gene1];
      }
    }
  }

  /** Any graph of the chain's three nodes and two edges collapses to the
      protein alone. */
  lemma DogmaChain(g: Graph, unqualified: seq<string>)
    requires WF(g) && g.attrs.Keys == {q1, rna1, gene1} && KeysKnown(g.edges, unqualified)
    requires |g.edges| == 2 && g.edges[0].u == rna1 && g.edges[0].v == q1 && g.edges[0].data == Relation(TRANSLATED_TO)
    requires g.edges[1].u == gene1 && g.edges[1].v == rna1 && g.edges[1].data == Relation(TRANSCRIBED_TO)
    ensures CollapseByCentralDogma(g, unqualified).Success?
    ensures CollapseByCentralDogma(g, unqualified).value.attrs.Keys == {q1}
    ensures CollapseByCentralDogma(g, unqualified).value.edges == []
  {
    var groups := [(q1, [rna1, gene1])];
    ChainDict(g.edges);
    assert BuildCentralDogmaCollapseDict(g) == Success(groups);
    ChainGroup();
    DogmaCollapse(g, groups, unqualified, q1);
  }

  /** The chain's group: the protein, then its RNA and gene, all distinct. */
  lemma ChainGroup()
    ensures Distinct([rna1, gene1]) && q1 !in [rna1, gene1]
    ensures {q1} + (set x | x in [rna1, gene1]) == {q1, rna1, gene1}
  {
    assert rna1[0] != gene1[0] && q1[0] != rna1[0] && q1[0] != gene1[0];
  }

  /** `g(1) -> r(1)` by transcription collapses to `r(1)` alone. */
  lemma TestCollapseDogmaTranscription(kc: int, unqualified: seq<string>)
    requires kc < 0 && -1 - kc < |unqualified|
    ensures var g := SimpleGraph([rna1, gene1], [Edge(gene1, rna1, kc, Relation(TRANSCRIBED_TO))]);
      && WF(g)
      && CollapseByCentralDogma(g, unqualified).Success?
      && CollapseByCentralDogma(g, unqualified).value.attrs.Keys == {rna1}
      && CollapseByCentralDogma(g, unqualified).value.edges == []
  {
    var ns := [rna1, gene1];
    var e := Edge(gene1, rna1, kc, Relation(TRANSCRIBED_TO));
    assert Distinct(ns) && (set n | n in ns) == {rna1, gene1};
    SimpleGraphWF(ns, [e]);
    DogmaTranscription(SimpleGraph(ns, [e]), unqualified);
  }

  /** Any graph of an RNA and its gene, joined by one transcription edge,
      collapses to the RNA alone. */
  lemma DogmaTranscription(g: Graph, unqualified: seq<string>)
    requires WF(g) && g.attrs.Keys == {rna1, gene1} && KeysKnown(g.edges, unqualified)
    requires |g.edges| == 1 && g.edges[0].u == gene1 && g.edges[0].v == rna1 && g.edges[0].data == Relation(TRANSCRIBED_TO)
    ensures CollapseByCentralDogma(g, unqualified).Success?
    ensures CollapseByCentralDogma(g, unqualified).value.attrs.Keys == {rna1}
    ensures CollapseByCentralDogma(g, unqualified).value.edges == []
  {
    var e := g.edges[0];
    var groups := [(rna1, [gene1])];
    assert g.edges == [e];
    assert AllHaveRelation([e]);
    assert [e][..0] == [];
    assert IsRelation(e, TRANSCRIBED_TO) && !IsRelation(e, TRANSLATED_TO);
    TranslationsOfOne(e);
    assert Translations([e]) == ([], map[]);
    assert GroupOf(map[], rna1) == rna1;
    assert Transcriptions([], map[], [e]) == groups;
    assert BuildCentralDogmaCollapseDict(g) == Success(groups);
    DogmaCollapse(g, groups, unqualified, rna1);
  }

  /** The common end of the three scenarios: one group whose key is the
      graph's only other node. */
  lemma DogmaCollapse(g: Graph, groups: seq<(Node, seq<Node>)>, unqualified: seq<string>, n: Node)
    requires WF(g) && |groups| == 1 && groups[0].0 == n && n !in groups[0].1
    requires Distinct(groups[0].1)
    requires g.attrs.Keys == {n} + set x | x in groups[0].1
    requires KeysKnown(g.edges, unqualified)
    requires BuildCentralDogmaCollapseDict(g) == Success(groups)
    ensures CollapseByCentralDogma(g, unqualified).Success?
    ensures CollapseByCentralDogma(g, unqualified).value.attrs.Keys == {n}
    ensures CollapseByCentralDogma(g, unqualified).value.edges == []
  {
    OneGroupSeparate(groups, n);
    CollapseNodesSucceeds(g, groups, unqualified);
    OneGroupSurvivor(g, groups, unqualified, n);
    var r := CollapseNodes(g, groups, unqualified).value;
    OnlySurvivor(r, n);
  }
}
