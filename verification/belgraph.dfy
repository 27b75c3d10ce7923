/** The networkx 1.x `MultiDiGraph` under a PyBEL `BELGraph`: nodes are
    tuples carrying an attribute dictionary, and every edge is identified by
    its source, its target and an integer key unique for that pair, and
    carries a data dictionary. Negative keys mark unqualified edges (the
    key is minus one minus the relation's position in PyBEL's list of
    unqualified relations); qualified edges get the non-negative keys
    networkx chooses.

    Nodes and edges are kept in insertion order. */
module BelGraph {
  import opened Wrappers
  import opened Seqs

  /** Attribute keys and node functions of the PyBEL vocabulary. */
  const FUNCTION := "function"
  const NAMESPACE := "namespace"
  const NAME := "name"
  const VARIANTS := "variants"
  const RELATION := "relation"
  const ANNOTATIONS := "annotations"
  const GENE := "Gene"
  const RNA := "RNA"
  const PROTEIN := "Protein"
  const PATHOLOGY := "Pathology"
  const TRANSLATED_TO := "translatedTo"
  const TRANSCRIBED_TO := "transcribedTo"

  /** A value in an attribute dictionary. */
  datatype Value =
    | Str(s: string)
    | Int(i: int)
    | Bool(b: bool)
    | Null
    | List(items: seq<Value>)
    | Dict(entries: map<string, Value>)

  /** Python's `bool(v)`: empty strings and containers, zero, `False` and
      `None` are false. */
  predicate Truthy(v: Value) {
    match v
    case Str(s) => |s| > 0
    case Int(i) => i != 0
    case Bool(b) => b
    case Null => false
    case List(items) => |items| > 0
    case Dict(entries) => |entries| > 0
  }

  type Attrs = map<string, Value>

  /** A PyBEL node tuple such as `('Protein', 'HGNC', 'APP')`. */
  type Node = seq<string>

  datatype Edge = Edge(u: Node, v: Node, key: int, data: Attrs)

  datatype Graph = Graph(nodes: seq<Node>, attrs: map<Node, Attrs>, edges: seq<Edge>)

  const Empty: Graph := Graph([], map[], [])

  /** What identifies an edge. */
  function Slot(e: Edge): (Node, Node, int) {
    (e.u, e.v, e.key)
  }

  predicate UniqueSlots(es: seq<Edge>) {
    forall i, j :: 0 <= i < j < |es| ==> Slot(es[i]) != Slot(es[j])
  }

  /** Edges with distinct slots are distinct. */
  lemma SlotsDistinct(es: seq<Edge>)
    requires UniqueSlots(es)
    ensures Distinct(es)
  {
    forall i, j | 0 <= i < j < |es|
      ensures es[i] != es[j]
    {
      assert Slot(es[i]) != Slot(es[j]);
    }
  }

  /** The representation invariant: each node is listed once and has an
      attribute dictionary, every edge joins two nodes, and no two edges
      share source, target and key. */
  predicate WF(g: Graph) {
    && Distinct(g.nodes)
    && (forall n :: n in g.attrs ==> n in g.nodes)
    && (forall n :: n in g.nodes ==> n in g.attrs)
    && (forall e :: e in g.edges ==> e.u in g.attrs && e.v in g.attrs)
    && UniqueSlots(g.edges)
  }

  lemma EmptyIsWF()
    ensures WF(Empty)
  {
  }

  /** The data of the edge `u -> v` with key `k`: `g.edge[u][v][k]`. */
  function Find(es: seq<Edge>, u: Node, v: Node, k: int): (r: Option<Attrs>)
    ensures r.None? <==> forall e :: e in es ==> Slot(e) != (u, v, k)
    ensures r.Some? ==> Edge(u, v, k, r.value) in es
  {
    if |es| == 0 then None
    else if Slot(es[0]) == (u, v, k) then Some(es[0].data)
    else
      assert forall e :: e in es <==> e == es[0] || e in es[1..];
      Find(es[1..], u, v, k)
  }

  function EdgeData(g: Graph, u: Node, v: Node, k: int): Option<Attrs> {
    Find(g.edges, u, v, k)
  }

  /** `k in g.edge[u][v]`, false when there is no `u -> v` edge at all. */
  predicate HasEdge(g: Graph, u: Node, v: Node, k: int) {
    EdgeData(g, u, v, k).Some?
  }

  /** `v in g.edge[u]`: networkx drops a pair's dictionary with its last
      edge, so this holds exactly when some `u -> v` edge exists. */
  predicate HasPair(g: Graph, u: Node, v: Node) {
    exists e :: e in g.edges && e.u == u && e.v == v
  }

  /** The keys of `g.edge[u][v]`. */
  function KeysBetween(g: Graph, u: Node, v: Node): set<int> {
    set e | e in g.edges && e.u == u && e.v == v :: e.key
  }

  /** The edges out of `n`, and into `n`, in insertion order. */
  function OutEdges(g: Graph, n: Node): (r: seq<Edge>)
    ensures forall e :: e in r <==> e in g.edges && e.u == n
  {
    Filter(g.edges, (e: Edge) => e.u == n)
  }

  function InEdges(g: Graph, n: Node): (r: seq<Edge>)
    ensures forall e :: e in r <==> e in g.edges && e.v == n
  {
    Filter(g.edges, (e: Edge) => e.v == n)
  }

  /** `g.adj[n]`: the distinct successors of `n`. */
  function Successors(g: Graph, n: Node): set<Node> {
    set e | e in g.edges && e.u == n :: e.v
  }

  /** `g.add_node(n)` when `n` is absent; nothing otherwise. */
  function EnsureNode(g: Graph, n: Node): (r: Graph)
    ensures r.attrs.Keys == g.attrs.Keys + {n}
    ensures forall m :: m in g.attrs ==> r.attrs[m] == g.attrs[m]
    ensures n !in g.attrs ==> r.attrs[n] == map[]
    ensures r.edges == g.edges
    ensures WF(g) ==> WF(r)
  {
    if n in g.attrs then g
    else g.(nodes := g.nodes + [n], attrs := g.attrs[n := map[]])
  }

  /** `g.add_node(n, attr_dict=a)`: a new node gets `a`; an existing node
      has its dictionary updated with `a`. */
  function AddNode(g: Graph, n: Node, a: Attrs): (r: Graph)
    ensures r.attrs.Keys == g.attrs.Keys + {n}
    ensures forall m :: m in g.attrs && m != n ==> r.attrs[m] == g.attrs[m]
    ensures r.attrs[n] == if n in g.attrs then g.attrs[n] + a else a
    ensures r.edges == g.edges
    ensures WF(g) ==> WF(r)
  {
    if n in g.attrs then g.(attrs := g.attrs[n := g.attrs[n] + a])
    else g.(nodes := g.nodes + [n], attrs := g.attrs[n := a])
  }

  /** Every edge in the `(u, v, k)` slot gets data `d`. */
  function SetData(es: seq<Edge>, u: Node, v: Node, k: int, d: Attrs): (r: seq<Edge>)
    ensures |r| == |es|
    ensures forall i :: 0 <= i < |es| ==> Slot(r[i]) == Slot(es[i])
    ensures forall i :: 0 <= i < |es| && Slot(es[i]) != (u, v, k) ==> r[i] == es[i]
    ensures forall i :: 0 <= i < |es| && Slot(es[i]) == (u, v, k) ==> r[i].data == d
  {
    seq(|es|, i requires 0 <= i < |es| => if Slot(es[i]) == (u, v, k) then es[i].(data := d) else es[i])
  }

  lemma {:induction false} FindSetData(es: seq<Edge>, u: Node, v: Node, k: int, d: Attrs, x: Node, y: Node, j: int)
    ensures Find(SetData(es, u, v, k, d), x, y, j)
         == if (x, y, j) == (u, v, k) && Find(es, x, y, j).Some? then Some(d) else Find(es, x, y, j)
  {
    if |es| > 0 {
      var r := SetData(es, u, v, k, d);
      assert r[1..] == SetData(es[1..], u, v, k, d);
      FindSetData(es[1..], u, v, k, d, x, y, j);
    }
  }

  lemma {:induction false} FindAppend(es: seq<Edge>, e: Edge, x: Node, y: Node, j: int)
    ensures Find(es + [e], x, y, j)
         == if Find(es, x, y, j).None? && Slot(e) == (x, y, j) then Some(e.data) else Find(es, x, y, j)
  {
    if |es| > 0 {
      assert (es + [e])[1..] == es[1..] + [e];
      FindAppend(es[1..], e, x, y, j);
    }
  }

  lemma {:induction false} SetDataKeepsWF(g: Graph, u: Node, v: Node, k: int, d: Attrs)
    requires WF(g)
    ensures WF(g.(edges := SetData(g.edges, u, v, k, d)))
  {
    var r := SetData(g.edges, u, v, k, d);
    forall e | e in r
      ensures e.u in g.attrs && e.v in g.attrs
    {
      var i :| 0 <= i < |r| && r[i] == e;
      assert Slot(r[i]) == Slot(g.edges[i]);
    }
  }

  /** `g.add_edge(u, v, key=k, attr_dict=d)`: missing endpoints are added
      with empty dictionaries; an edge already in the slot has its data
      updated with `d`; otherwise a new edge is stored. No other edge and no
      existing node's dictionary changes. */
  function AddEdge(g: Graph, u: Node, v: Node, k: int, d: Attrs): (r: Graph)
    ensures r.attrs.Keys == g.attrs.Keys + {u, v}
    ensures forall n :: n in g.attrs ==> r.attrs[n] == g.attrs[n]
    ensures forall n :: n in r.attrs && n !in g.attrs ==> r.attrs[n] == map[]
    ensures EdgeData(r, u, v, k) == Some(if HasEdge(g, u, v, k) then EdgeData(g, u, v, k).value + d else d)
    ensures forall x, y, j :: (x, y, j) != (u, v, k) ==> EdgeData(r, x, y, j) == EdgeData(g, x, y, j)
    ensures WF(g) ==> WF(r)
  {
    StoreEdgeAttrs(g, u, v, k, d);
    StoreEdgeSlot(g, u, v, k, d);
    StoreEdgeOthers(g, u, v, k, d);
    StoreEdgeKeepsWF(g, u, v, k, d);
    StoreEdge(g, u, v, k, d)
  }

  lemma StoreEdgeAttrs(g: Graph, u: Node, v: Node, k: int, d: Attrs)
    ensures StoreEdge(g, u, v, k, d).attrs.Keys == g.attrs.Keys + {u, v}
    ensures forall n :: n in g.attrs ==> StoreEdge(g, u, v, k, d).attrs[n] == g.attrs[n]
    ensures forall n :: n in StoreEdge(g, u, v, k, d).attrs && n !in g.attrs ==> StoreEdge(g, u, v, k, d).attrs[n] == map[]
  {
    var g0 := EnsureNode(g, u);
    var g1 := EnsureNode(g0, v);
    forall n | n in g1.attrs && n !in g.attrs
      ensures g1.attrs[n] == map[]
    {
      if n in g0.attrs {
        assert n == u && g0.attrs[n] == map[];
      }
    }
  }

  function StoreEdge(g: Graph, u: Node, v: Node, k: int, d: Attrs): Graph {
    var g1 := EnsureNode(EnsureNode(g, u), v);
    g1.(edges := StoreIn(g1.edges, u, v, k, d))
  }

  /** The edge list once `d` is stored in slot `(u, v, k)`. */
  function StoreIn(es: seq<Edge>, u: Node, v: Node, k: int, d: Attrs): seq<Edge> {
    match Find(es, u, v, k)
    case Some(prior) => SetData(es, u, v, k, prior + d)
    case None => es + [Edge(u, v, k, d)]
  }

  lemma {:induction false} StoreEdgeSlot(g: Graph, u: Node, v: Node, k: int, d: Attrs)
    ensures EdgeData(StoreEdge(g, u, v, k, d), u, v, k)
         == Some(if HasEdge(g, u, v, k) then EdgeData(g, u, v, k).value + d else d)
  {
    var g1 := EnsureNode(EnsureNode(g, u), v);
    match Find(g1.edges, u, v, k)
    case Some(prior) =>
      FindSetData(g1.edges, u, v, k, prior + d, u, v, k);
    case None =>
      FindAppend(g1.edges, Edge(u, v, k, d), u, v, k);
  }

  lemma {:induction false} StoreEdgeOthers(g: Graph, u: Node, v: Node, k: int, d: Attrs)
    ensures forall x, y, j :: (x, y, j) != (u, v, k)
              ==> EdgeData(StoreEdge(g, u, v, k, d), x, y, j) == EdgeData(g, x, y, j)
  {
    var g1 := EnsureNode(EnsureNode(g, u), v);
    forall x, y, j | (x, y, j) != (u, v, k)
      ensures EdgeData(StoreEdge(g, u, v, k, d), x, y, j) == EdgeData(g, x, y, j)
    {
      match Find(g1.edges, u, v, k)
      case Some(prior) =>
        FindSetData(g1.edges, u, v, k, prior + d, x, y, j);
      case None =>
        FindAppend(g1.edges, Edge(u, v, k, d), x, y, j);
    }
  }

  lemma {:induction false} StoreEdgeKeepsWF(g: Graph, u: Node, v: Node, k: int, d: Attrs)
    ensures WF(g) ==> WF(StoreEdge(g, u, v, k, d))
  {
    if WF(g) {
      var g1 := EnsureNode(EnsureNode(g, u), v);
      match Find(g1.edges, u, v, k)
      case Some(prior) =>
        SetDataKeepsWF(g1, u, v, k, prior + d);
      case None =>
        AppendKeepsWF(g1, Edge(u, v, k, d));
    }
  }

  /** Appending an edge between two nodes in a free slot keeps the graph
      well formed. */
  lemma AppendKeepsWF(g: Graph, e: Edge)
    requires WF(g) && e.u in g.attrs && e.v in g.attrs
    requires forall f :: f in g.edges ==> Slot(f) != Slot(e)
    ensures WF(g.(edges := g.edges + [e]))
  {
    var r := g.edges + [e];
    forall i, j | 0 <= i < j < |r|
      ensures Slot(r[i]) != Slot(r[j])
    {
      if j == |g.edges| {
        assert r[i] in g.edges;
      }
    }
  }

  /** The smallest integer from `k` on that is not in `keys`. */
  function NextFreeKey(keys: set<int>, k: int): (r: int)
    ensures r >= k && r !in keys
    ensures forall j :: k <= j < r ==> j in keys
    decreases |set x | x in keys && x >= k|
  {
    if k !in keys then k
    else
      var above := set x | x in keys && x >= k + 1;
      var from := set x | x in keys && x >= k;
      assert above + {k} <= from;
      assert |above + {k}| == |above| + 1;
      SubsetCardinality(above + {k}, from);
      NextFreeKey(keys, k + 1)
  }

  lemma {:induction false} SubsetCardinality<T>(a: set<T>, b: set<T>)
    requires a <= b
    ensures |a| <= |b|
    decreases |a|
  {
    if a != {} {
      var x :| x in a;
      SubsetCardinality(a - {x}, b - {x});
    }
  }

  /** The key networkx gives an edge added without one: starting from the
      number of `u -> v` edges, the first integer not already in use. */
  function FreshKey(g: Graph, u: Node, v: Node): (r: int)
    ensures r >= 0 && !HasEdge(g, u, v, r)
    ensures r >= |KeysBetween(g, u, v)|
  {
    var keys := KeysBetween(g, u, v);
    var r := NextFreeKey(keys, |keys|);
    assert EdgeData(g, u, v, r).None? by {
      forall e | e in g.edges
        ensures Slot(e) != (u, v, r)
      {
        if e.u == u && e.v == v {
          assert e.key in keys;
        }
      }
    }
    r
  }

  /** Adding an edge in an empty slot appends it: every edge already there
      stays, and the nodes list grows only by missing endpoints. */
  lemma {:induction false} AddEdgeAppends(g: Graph, u: Node, v: Node, k: int, d: Attrs)
    requires !HasEdge(g, u, v, k)
    ensures AddEdge(g, u, v, k, d).edges == g.edges + [Edge(u, v, k, d)]
  {
    var g1 := EnsureNode(EnsureNode(g, u), v);
    assert g1.edges == g.edges;
  }

  lemma FreshEdgeAppends(g: Graph, u: Node, v: Node, d: Attrs)
    ensures AddFreshEdge(g, u, v, d).edges == g.edges + [Edge(u, v, FreshKey(g, u, v), d)]
  {
    AddEdgeAppends(g, u, v, FreshKey(g, u, v), d);
  }

  /** `g.add_edge(u, v, attr_dict=d)`: always a new edge. */
  function AddFreshEdge(g: Graph, u: Node, v: Node, d: Attrs): (r: Graph)
    ensures r.attrs.Keys == g.attrs.Keys + {u, v}
    ensures forall n :: n in g.attrs ==> r.attrs[n] == g.attrs[n]
    ensures !HasEdge(g, u, v, FreshKey(g, u, v))
    ensures EdgeData(r, u, v, FreshKey(g, u, v)) == Some(d)
    ensures forall x, y, j :: (x, y, j) != (u, v, FreshKey(g, u, v)) ==> EdgeData(r, x, y, j) == EdgeData(g, x, y, j)
    ensures WF(g) ==> WF(r)
  {
    AddEdge(g, u, v, FreshKey(g, u, v), d)
  }

  /** Every edge of `g` is still in `r`, and an edge with a non-negative
      key still has its data: only unqualified edges (negative keys) can
      have data merged into them. */
  ghost predicate Grows(g: Graph, r: Graph) {
    forall x, y, j :: HasEdge(g, x, y, j) ==> HasEdge(r, x, y, j) && (j >= 0 ==> EdgeData(r, x, y, j) == EdgeData(g, x, y, j))
  }

  lemma GrowsTransitive(g: Graph, m: Graph, r: Graph)
    requires Grows(g, m) && Grows(m, r)
    ensures Grows(g, r)
  {
  }

  /** Two edges of a graph in the same slot are the same edge. */
  lemma SlotsAreUnique(es: seq<Edge>, a: Edge, b: Edge)
    requires UniqueSlots(es) && a in es && b in es && Slot(a) == Slot(b)
    ensures a == b
  {
    var i :| 0 <= i < |es| && es[i] == a;
    var j :| 0 <= j < |es| && es[j] == b;
    assert !(i < j) && !(j < i);
  }

  /** An edge of a well-formed graph is what the graph stores in its slot. */
  lemma DataOfEdge(g: Graph, e: Edge)
    requires WF(g) && e in g.edges
    ensures EdgeData(g, e.u, e.v, e.key) == Some(e.data)
  {
    var d := EdgeData(g, e.u, e.v, e.key);
    assert d.Some?;
    SlotsAreUnique(g.edges, e, Edge(e.u, e.v, e.key, d.value));
  }

  /** `g.add_edge(u, v, key=k, attr_dict=d)` for a negative (unqualified)
      key, `g.add_edge(u, v, attr_dict=d)` otherwise: an unqualified edge
      keeps its key, merging into an edge already there, and any other
      edge is added under a fresh non-negative key. Only `u -> v` slots
      change. */
  function CopyEdgeTo(g: Graph, u: Node, v: Node, k: int, d: Attrs): (r: Graph)
    ensures r.attrs.Keys == g.attrs.Keys + {u, v}
    ensures forall n :: n in g.attrs ==> r.attrs[n] == g.attrs[n]
    ensures WF(g) ==> WF(r)
    ensures Grows(g, r)
    ensures forall x, y, j :: HasEdge(r, x, y, j) ==> HasEdge(g, x, y, j) || (x, y) == (u, v)
    ensures k < 0 ==> HasEdge(r, u, v, k)
    ensures k >= 0 ==> exists j :: (j >= 0 && !HasEdge(g, u, v, j) && EdgeData(r, u, v, j) == Some(d))
  {
    if k < 0 then AddEdge(g, u, v, k, d)
    else
      var r := AddFreshEdge(g, u, v, d);
      assert EdgeData(r, u, v, FreshKey(g, u, v)) == Some(d);
      r
  }

  lemma {:induction false} FilterKeepsUniqueSlots(es: seq<Edge>, keep: Edge -> bool)
    requires UniqueSlots(es)
    ensures UniqueSlots(Filter(es, keep))
  {
    if |es| > 0 {
      var front := es[..|es| - 1];
      assert UniqueSlots(front);
      FilterKeepsUniqueSlots(front, keep);
      var last := es[|es| - 1];
      forall e | e in Filter(front, keep)
        ensures Slot(e) != Slot(last)
      {
        var i :| 0 <= i < |front| && front[i] == e;
      }
    }
  }

  /** `g.remove_nodes_from(ns)`: the nodes of `ns` go, with every edge that
      touches one of them; nodes of `ns` not in the graph are ignored. */
  function RemoveNodesFrom(g: Graph, ns: set<Node>): (r: Graph)
    ensures r.attrs == g.attrs - ns
    ensures forall e :: e in r.edges <==> e in g.edges && e.u !in ns && e.v !in ns
    ensures WF(g) ==> WF(r)
  {
    var r := Graph(Filter(g.nodes, (n: Node) => n !in ns), g.attrs - ns,
                   Filter(g.edges, (e: Edge) => e.u !in ns && e.v !in ns));
    if WF(g) then
      FilterKeepsDistinct(g.nodes, (n: Node) => n !in ns);
      FilterKeepsUniqueSlots(g.edges, (e: Edge) => e.u !in ns && e.v !in ns);
      r
    else r
  }

  /** `g.remove_node(n)`, which raises `NetworkXError` for a missing node. */
  function RemoveNode(g: Graph, n: Node): (r: Result<Graph, Error>)
    ensures r.Failure? <==> n !in g.attrs
    ensures r.Success? ==> r.value == RemoveNodesFrom(g, {n})
  {
    if n !in g.attrs then Failure(NetworkXError("node not in graph"))
    else Success(RemoveNodesFrom(g, {n}))
  }

  /** `g.remove_edge(u, v, k)` for every edge `drop` selects. */
  function RemoveEdgesWhere(g: Graph, drop: Edge -> bool): (r: Graph)
    ensures r.attrs == g.attrs
    ensures forall e :: e in r.edges <==> e in g.edges && !drop(e)
    ensures WF(g) ==> WF(r)
  {
    var r := g.(edges := Filter(g.edges, (e: Edge) => !drop(e)));
    if WF(g) then
      FilterKeepsUniqueSlots(g.edges, (e: Edge) => !drop(e));
      r
    else r
  }

  /** `data[key]` on an attribute dictionary, which raises `KeyError` for a
      missing key. */
  function Get(a: Attrs, key: string): (r: Result<Value, Error>)
    ensures r.Success? <==> key in a
    ensures r.Success? ==> r.value == a[key]
  {
    if key in a then Success(a[key]) else Failure(KeyError(key))
  }

  /** The dictionary `add_simple_node` gives a node. */
  function Simple(n: Node): Attrs
    requires |n| == 3
  {
    map[FUNCTION := Str(n[0]), NAMESPACE := Str(n[1]), NAME := Str(n[2])]
  }
}
