/** The boundary of a node set inside a graph (`subgraph_expansion`): the
    edges leaving and entering the set, how often each node is reached,
    the annotated edges of a named subgraph, and the "fill" edges that
    would close gaps around the set. */
module Expansion {
  import opened Wrappers
  import opened Seqs
  import opened BelGraph
  import opened Utils

  type Pair = (Node, Node)

  /** `graph.successors_iter(u)` and `graph.predecessors_iter(v)` raise
      `NetworkXError` for a node outside the graph. */
  function CheckInside(g: Graph, s: set<Node>): (r: Result<(), Error>)
    ensures r.Success? <==> s <= g.attrs.Keys
  {
    if s <= g.attrs.Keys then Success(()) else Failure(NetworkXError("node not in graph"))
  }

  /** The pairs of the edges leaving `s`. */
  function Leaving(g: Graph, s: set<Node>): set<Pair> {
    set e | e in g.edges && e.u in s && e.v !in s :: (e.u, e.v)
  }

  /** The pairs of the edges entering `s`. */
  function Entering(g: Graph, s: set<Node>): set<Pair> {
    set e | e in g.edges && e.u !in s && e.v in s :: (e.u, e.v)
  }

  /** `get_possible_successor_edges(graph, subgraph)` */
  function SuccessorEdges(g: Graph, s: set<Node>): (r: Result<set<Pair>, Error>)
    ensures r.Success? <==> s <= g.attrs.Keys
    ensures r.Success? ==> r.value == Leaving(g, s)
  {
    var _ :- CheckInside(g, s);
    Success(Leaving(g, s))
  }

  /** `get_possible_predecessor_edges(graph, subgraph)` */
  function PredecessorEdges(g: Graph, s: set<Node>): (r: Result<set<Pair>, Error>)
    ensures r.Success? <==> s <= g.attrs.Keys
    ensures r.Success? ==> r.value == Entering(g, s)
  {
    var _ :- CheckInside(g, s);
    Success(Entering(g, s))
  }

  /** The successor boundary is exactly the pairs `(u, v)` with `u` inside,
      `v` a successor of `u` and `v` outside; the predecessor boundary the
      pairs with `v` inside, `u` a predecessor of `v` and `u` outside. */
  lemma BoundarySpec(g: Graph, s: set<Node>, u: Node, v: Node)
    requires s <= g.attrs.Keys
    ensures (u, v) in SuccessorEdges(g, s).value <==> u in s && v in Successors(g, u) && v !in s
    ensures (u, v) in PredecessorEdges(g, s).value <==> v in s && u !in s && HasPair(g, u, v)
    ensures SuccessorEdges(g, s).value !! PredecessorEdges(g, s).value
  {
    if v in Successors(g, u) {
      var e :| e in g.edges && e.u == u && e.v == v;
    }
    if HasPair(g, u, v) {
      var e :| e in g.edges && e.u == u && e.v == v;
    }
  }

  /** `Counter(v for u, v in pairs)`: each second component with the
      number of pairs that end in it. */
  function CountSecond(ps: set<Pair>): (c: map<Node, nat>)
    ensures forall x :: x in c <==> exists p :: p in ps && p.1 == x
  {
    map x | x in Seconds(ps) :: |Into(ps, x)|
  }

  /** `Counter(u for u, v in pairs)` */
  function CountFirst(ps: set<Pair>): (c: map<Node, nat>)
    ensures forall x :: x in c <==> exists p :: p in ps && p.0 == x
  {
    map x | x in Firsts(ps) :: |OutOf(ps, x)|
  }

  function Seconds(ps: set<Pair>): set<Node> {
    set p | p in ps :: p.1
  }

  function Firsts(ps: set<Pair>): set<Node> {
    set p | p in ps :: p.0
  }

  /** The pairs that start in `x`. */
  function OutOf(ps: set<Pair>, x: Node): set<Pair> {
    set p | p in ps && p.0 == x
  }

  /** A `Counter` lookup: missing entries count zero. */
  function Tally(c: map<Node, nat>, x: Node): nat {
    if x in c then c[x] else 0
  }

  /** `count_possible_successors(graph, subgraph)` */
  function CountPossibleSuccessors(g: Graph, s: set<Node>): (r: Result<map<Node, nat>, Error>)
    ensures r.Success? <==> s <= g.attrs.Keys
  {
    var ps :- SuccessorEdges(g, s);
    Success(CountSecond(ps))
  }

  /** `count_possible_predecessors(graph, subgraph)` */
  function CountPossiblePredecessors(g: Graph, s: set<Node>): (r: Result<map<Node, nat>, Error>)
    ensures r.Success? <==> s <= g.attrs.Keys
  {
    var ps :- PredecessorEdges(g, s);
    Success(CountSecond(ps))
  }

  /** The boundary pairs that end in `x`. */
  function Into(ps: set<Pair>, x: Node): set<Pair> {
    set p | p in ps && p.1 == x
  }

  /** The successor counter counts outside nodes only, each by the inside
      nodes it follows; the predecessor counter counts inside nodes only,
      each by the outside nodes before it, not the outside nodes
      themselves. */
  lemma CountersSpec(g: Graph, s: set<Node>, x: Node)
    requires s <= g.attrs.Keys
    ensures var c := CountPossibleSuccessors(g, s).value;
      (x in c ==> x !in s && c[x] == |Into(SuccessorEdges(g, s).value, x)| && c[x] >= 1)
    ensures var c := CountPossiblePredecessors(g, s).value;
      (x in c ==> x in s && c[x] == |Into(PredecessorEdges(g, s).value, x)| && c[x] >= 1)
  {
    var sc := CountPossibleSuccessors(g, s).value;
    var ps := SuccessorEdges(g, s).value;
    if x in sc {
      var p :| p in ps && p.1 == x;
      assert p in Into(ps, x);
    }
    var pc := CountPossiblePredecessors(g, s).value;
    var qs := PredecessorEdges(g, s).value;
    if x in pc {
      var p :| p in qs && p.1 == x;
      assert p in Into(qs, x);
    }
  }

  /** `_permissive_node_filter` stands in for a missing filter. */
  function OrPermissive(f: Option<Node -> bool>): Node -> bool {
    if f.Some? then f.value else (n: Node) => true
  }

  /** The test of `get_subgraph_edges` on one edge. */
  predicate InSubgraph(e: Edge, name: Value, key: string, sourceOk: Node -> bool, targetOk: Node -> bool) {
    Annotation(e.data, key) == Some(name) && sourceOk(e.u) && targetOk(e.v)
  }

  /** `get_subgraph_edges(graph, subgraph_name, subgraph_key,
      source_filter, target_filter)`: the edges, in order, whose annotation
      `subgraph_key` equals the name and whose ends pass the filters. */
  function SubgraphEdges(g: Graph, name: Value, key: string, sourceFilter: Option<Node -> bool>,
                         targetFilter: Option<Node -> bool>): (r: seq<Edge>)
    ensures |r| <= |g.edges|
    ensures forall e :: e in r <==>
      e in g.edges && InSubgraph(e, name, key, OrPermissive(sourceFilter), OrPermissive(targetFilter))
    ensures exists idx :: InOrderAt(r, g.edges, idx)
  {
    var sourceOk := OrPermissive(sourceFilter);
    var targetOk := OrPermissive(targetFilter);
    FilterIsInOrder(g.edges, (e: Edge) => InSubgraph(e, name, key, sourceOk, targetOk));
    Filter(g.edges, (e: Edge) => InSubgraph(e, name, key, sourceOk, targetOk))
  }

  /** With the default filters only the annotation decides. */
  lemma SubgraphEdgesDefault(g: Graph, name: Value, key: string, e: Edge)
    ensures e in SubgraphEdges(g, name, key, None, None) <==> e in g.edges && Annotation(e.data, key) == Some(name)
  {
  }

  /** The boundary pairs whose outside node is in `gaps`: successor pairs
      by their second node, predecessor pairs by their first. */
  function Gaps(succ: set<Pair>, pred: set<Pair>, gaps: set<Node>): set<Pair> {
    (set p | p in succ && p.1 in gaps) + (set p | p in pred && p.0 in gaps)
  }

  /** `get_subgraph_fill_edges(graph, subgraph, node_filter)` as written:
      both counters count second components, so the predecessor counter
      tallies inside nodes. */
  function FillEdges(g: Graph, s: set<Node>, nodeFilter: Option<Node -> bool>): (r: Result<set<Pair>, Error>)
    ensures r.Success? <==> s <= g.attrs.Keys
  {
    var _ :- CheckInside(g, s);
    var succ := Leaving(g, s);
    var pred := Entering(g, s);
    var sc := CountSecond(succ);
    var pc := CountSecond(pred);
    var ok := OrPermissive(nodeFilter);
    var gaps := set x | x in sc.Keys + pc.Keys && 2 <= Tally(sc, x) + Tally(pc, x) && ok(x);
    Success(Gaps(succ, pred, gaps))
  }

  /** The number of boundary pairs that join the outside node `x` to the
      set, in either direction. */
  function Contacts(g: Graph, s: set<Node>, x: Node): nat
    requires s <= g.attrs.Keys
  {
    |Into(SuccessorEdges(g, s).value, x)| + |OutOf(PredecessorEdges(g, s).value, x)|
  }

  /** As written, a fill edge has exactly one end in the set, its outside
      end passes the filter, and that end is the successor of at least two
      inside nodes; being a predecessor of inside nodes never counts. */
  lemma FillEdgesSpec(g: Graph, s: set<Node>, nodeFilter: Option<Node -> bool>, u: Node, v: Node)
    requires s <= g.attrs.Keys
    ensures (u, v) in FillEdges(g, s, nodeFilter).value <==>
      || ((u, v) in SuccessorEdges(g, s).value && OrPermissive(nodeFilter)(v)
            && |Into(SuccessorEdges(g, s).value, v)| >= 2)
      || ((u, v) in PredecessorEdges(g, s).value && OrPermissive(nodeFilter)(u)
            && |Into(SuccessorEdges(g, s).value, u)| >= 2)
  {
    var succ := SuccessorEdges(g, s).value;
    var pred := PredecessorEdges(g, s).value;
    var sc := CountSecond(succ);
    var pc := CountSecond(pred);
    OutsideTally(g, s, u);
    OutsideTally(g, s, v);
    if (u, v) in succ {
      assert (u, v) in Into(succ, v);
    }
    if (u, v) in pred {
      BoundarySpec(g, s, u, v);
    }
  }

  /** For an outside node the predecessor counter is silent and the
      successor counter gives its number of inside predecessors. */
  lemma OutsideTally(g: Graph, s: set<Node>, x: Node)
    requires s <= g.attrs.Keys
    ensures x !in s ==> Tally(CountSecond(PredecessorEdges(g, s).value), x) == 0
    ensures Tally(CountSecond(SuccessorEdges(g, s).value), x) == |Into(SuccessorEdges(g, s).value, x)|
  {
    var succ := SuccessorEdges(g, s).value;
    if x !in CountSecond(succ) {
      assert Into(succ, x) == {};
    }
  }

  /** The fill edges meant: every outside node joined to the set by at
      least two boundary pairs, counted in both directions, that passes the
      filter, contributes all its boundary pairs. */
  function FillEdgesIntended(g: Graph, s: set<Node>, nodeFilter: Option<Node -> bool>): (r: Result<set<Pair>, Error>)
    ensures r.Success? <==> s <= g.attrs.Keys
  {
    var _ :- CheckInside(g, s);
    var succ := Leaving(g, s);
    var pred := Entering(g, s);
    var sc := CountSecond(succ);
    var pc := CountFirst(pred);
    var ok := OrPermissive(nodeFilter);
    var gaps := set x | x in sc.Keys + pc.Keys && 2 <= Tally(sc, x) + Tally(pc, x) && ok(x);
    Success(Gaps(succ, pred, gaps))
  }

  lemma FillEdgesIntendedSpec(g: Graph, s: set<Node>, nodeFilter: Option<Node -> bool>, u: Node, v: Node)
    requires s <= g.attrs.Keys
    ensures (u, v) in FillEdgesIntended(g, s, nodeFilter).value <==>
      || ((u, v) in SuccessorEdges(g, s).value && OrPermissive(nodeFilter)(v) && Contacts(g, s, v) >= 2)
      || ((u, v) in PredecessorEdges(g, s).value && OrPermissive(nodeFilter)(u) && Contacts(g, s, u) >= 2)
  {
    var succ := SuccessorEdges(g, s).value;
    var pred := PredecessorEdges(g, s).value;
    TallyBoth(succ, pred, u);
    TallyBoth(succ, pred, v);
    if (u, v) in succ {
      assert (u, v) in Into(succ, v);
    }
    if (u, v) in pred {
      assert (u, v) in OutOf(pred, u);
    }
  }

  lemma TallyBoth(succ: set<Pair>, pred: set<Pair>, x: Node)
    ensures Tally(CountSecond(succ), x) == |Into(succ, x)|
    ensures Tally(CountFirst(pred), x) == |OutOf(pred, x)|
  {
    if x !in CountSecond(succ) {
      assert Into(succ, x) == {};
    }
    if x !in CountFirst(pred) {
      assert OutOf(pred, x) == {};
    }
  }

  // A node `x` outside the set `{s1, s2}` with edges into both members:
  // a gap by any reading, yet the code as written reports nothing.
  const s1: Node := [PROTEIN, "HGNC", "s1"]
  const s2: Node := [PROTEIN, "HGNC", "s2"]
  const x: Node := [PROTEIN, "HGNC", "x"]

  const Fan: Graph := Graph([s1, s2, x], map[s1 := map[], s2 := map[], x := map[]],
                            [Edge(x, s1, 0, map[]), Edge(x, s2, 0, map[])])

  lemma FanBoundary(g: Graph)
    requires g == Fan
    ensures {s1, s2} <= g.attrs.Keys
    ensures SuccessorEdges(g, {s1, s2}).value == {}
    ensures (x, s1) in PredecessorEdges(g, {s1, s2}).value && (x, s2) in PredecessorEdges(g, {s1, s2}).value
  {
    assert g.edges[0] in g.edges && g.edges[1] in g.edges;
    assert x != s1 && x != s2 by {
      assert x[2] != s1[2] && x[2] != s2[2];
    }
  }

  /** As written, the fan produces no fill edge. */
  lemma FillEdgesMissesPredecessors(g: Graph, u: Node, v: Node)
    requires g == Fan
    ensures (u, v) !in FillEdges(g, {s1, s2}, None).value
  {
    FanBoundary(g);
    FillEdgesSpec(g, {s1, s2}, None, u, v);
  }

  /** Corrected, both of `x`'s edges fill the gap. */
  lemma FillEdgesIntendedFindsFan(g: Graph)
    requires g == Fan
    ensures (x, s1) in FillEdgesIntended(g, {s1, s2}, None).value
    ensures (x, s2) in FillEdgesIntended(g, {s1, s2}, None).value
  {
    FanBoundary(g);
    var pred := PredecessorEdges(g, {s1, s2}).value;
    assert OutOf(pred, x) >= {(x, s1), (x, s2)};
    SubsetCardinality({(x, s1), (x, s2)}, OutOf(pred, x));
    assert |{(x, s1), (x, s2)}| == 2;
    FillEdgesIntendedSpec(g, {s1, s2}, None, x, s1);
    FillEdgesIntendedSpec(g, {s1, s2}, None, x, s2);
  }
}
