/** Pruning (`prune_by_namespace`, `prune_by_type`, `prune`): removing the
    nodes a test selects, together with their edges. */
module Pruning {
  import opened Wrappers
  import opened Seqs
  import opened BelGraph

  /** The test of `prune_by_namespace`, once the function is known to be there. */
  predicate InNamespace(a: Attrs, fn: string, namespace: string)
    requires FUNCTION in a
  {
    a[FUNCTION] == Str(fn) && NAMESPACE in a && a[NAMESPACE] == Str(namespace)
  }

  /** Every node has a function. */
  predicate AllHaveFunction(g: Graph) {
    forall n :: n in g.attrs ==> FUNCTION in g.attrs[n]
  }

  /** The first loop of `prune_by_namespace` over the nodes `ns`: reading
      `data[FUNCTION]` fails with a `KeyError` at a node without one. */
  function SelectByNamespace(g: Graph, ns: seq<Node>, fn: string, namespace: string): (r: Result<seq<Node>, Error>)
    requires forall n :: n in ns ==> n in g.attrs
    ensures r.Success? <==> forall n :: n in ns ==> FUNCTION in g.attrs[n]
    ensures r.Failure? ==> r.error == KeyError(FUNCTION)
    ensures r.Success? ==> forall n :: n in r.value <==> n in ns && InNamespace(g.attrs[n], fn, namespace)
  {
    if |ns| == 0 then Success([])
    else
      var a := g.attrs[ns[0]];
      if FUNCTION !in a then Failure(KeyError(FUNCTION))
      else
        assert forall n :: n in ns <==> n == ns[0] || n in ns[1..];
        var rest :- SelectByNamespace(g, ns[1..], fn, namespace);
        Success(if InNamespace(a, fn, namespace) then [ns[0]] + rest else rest)
  }

  /** `prune_by_namespace(graph, fn, namespace)`. */
  function PruneByNamespace(g: Graph, fn: string, namespace: string): (r: Result<Graph, Error>)
    requires WF(g)
    ensures r.Success? ==> WF(r.value)
  {
    var doomed :- SelectByNamespace(g, g.nodes, fn, namespace);
    Success(RemoveNodesFrom(g, set n | n in doomed))
  }

  /** It fails exactly when some node has no function; otherwise it
      removes exactly the nodes of that function and namespace, with every
      edge that touches one of them. */
  lemma PruneByNamespaceSpec(g: Graph, fn: string, namespace: string)
    requires WF(g)
    ensures PruneByNamespace(g, fn, namespace).Failure? <==> !AllHaveFunction(g)
    ensures PruneByNamespace(g, fn, namespace).Failure? ==>
      PruneByNamespace(g, fn, namespace).error == KeyError(FUNCTION)
    ensures var r := PruneByNamespace(g, fn, namespace);
      r.Success? ==>
        && (forall n :: n in r.value.attrs <==> n in g.attrs && !InNamespace(g.attrs[n], fn, namespace))
        && (forall n :: n in r.value.attrs ==> r.value.attrs[n] == g.attrs[n])
        && (forall e :: e in r.value.edges <==>
              e in g.edges && !InNamespace(g.attrs[e.u], fn, namespace) && !InNamespace(g.attrs[e.v], fn, namespace))
  {
    var s := SelectByNamespace(g, g.nodes, fn, namespace);
    assert s.Success? <==> AllHaveFunction(g);
  }

  /** The test of `prune_by_type`: at most `threshold` distinct successors
      and the given function; `data.get` makes a missing function a
      mismatch rather than an error. */
  predicate Sparse(g: Graph, n: Node, fn: string, threshold: int)
    requires n in g.attrs
  {
    |Successors(g, n)| <= threshold && HasFunction(g.attrs[n], fn)
  }

  /** `fn == data.get(FUNCTION)` */
  predicate HasFunction(a: Attrs, fn: string) {
    FUNCTION in a && a[FUNCTION] == Str(fn)
  }

  /** The nodes `prune_by_type` collects, in node order. */
  function Doomed(g: Graph, fn: string, threshold: int): seq<Node> {
    Filter(g.nodes, (n: Node) => n in g.attrs && Sparse(g, n, fn, threshold))
  }

  /** The sparse nodes of function `fn`. */
  function SparseNodes(g: Graph, fn: string, threshold: int): set<Node> {
    set n | n in g.attrs && Sparse(g, n, fn, threshold)
  }

  /** `prune_by_type(graph, fn, prune_threshold)`: the pruned graph and
      the number of nodes pruned. */
  function PruneByType(g: Graph, fn: string, threshold: int): (r: (Graph, nat))
    requires WF(g)
    ensures WF(r.0)
  {
    var doomed := Doomed(g, fn, threshold);
    (RemoveNodesFrom(g, set n | n in doomed), |doomed|)
  }

  /** It removes exactly the sparse nodes of that function, with their
      edges, and returns how many nodes it removed. */
  lemma PruneByTypeSpec(g: Graph, fn: string, threshold: int)
    requires WF(g)
    ensures var (r, count) := PruneByType(g, fn, threshold);
      && (forall n :: n in r.attrs <==> n in g.attrs && !Sparse(g, n, fn, threshold))
      && (forall n :: n in r.attrs ==> r.attrs[n] == g.attrs[n])
      && (forall e :: e in r.edges <==>
            e in g.edges && !Sparse(g, e.u, fn, threshold) && !Sparse(g, e.v, fn, threshold))
      && count == |g.attrs.Keys| - |r.attrs.Keys|
  {
    var doomed := Doomed(g, fn, threshold);
    var gone := SparseNodes(g, fn, threshold);
    DoomedAreSparse(g, fn, threshold);
    assert PruneByType(g, fn, threshold) == (RemoveNodesFrom(g, gone), |doomed|);
    assert |doomed| == |g.attrs.Keys| - |(g.attrs - gone).Keys|;
  }

  /** The collected nodes are the sparse ones, each once, so their number
      is the number of keys removed. */
  lemma DoomedAreSparse(g: Graph, fn: string, threshold: int)
    requires WF(g)
    ensures (set n | n in Doomed(g, fn, threshold)) == SparseNodes(g, fn, threshold)
    ensures |Doomed(g, fn, threshold)| == |g.attrs.Keys| - |(g.attrs - SparseNodes(g, fn, threshold)).Keys|
  {
    var doomed := Doomed(g, fn, threshold);
    var gone := SparseNodes(g, fn, threshold);
    FilterKeepsDistinct(g.nodes, (n: Node) => n in g.attrs && Sparse(g, n, fn, threshold));
    assert (set n | n in doomed) == gone;
    RemovedCount(g.attrs.Keys, doomed);
    assert (g.attrs - gone).Keys == g.attrs.Keys - gone;
  }

  /** Removing the distinct members of `doomed`, all of them keys, leaves
      that many keys fewer. */
  lemma RemovedCount(keys: set<Node>, doomed: seq<Node>)
    requires Distinct(doomed) && forall n :: n in doomed ==> n in keys
    ensures |doomed| == |keys| - |keys - (set n | n in doomed)|
  {
    var gone := set n | n in doomed;
    DistinctCardinality(doomed);
    assert keys == (keys - gone) + gone;
  }

  /** `prune(graph)`: sparse genes first, then sparse RNAs of what is left. */
  function Prune(g: Graph): (r: Graph)
    requires WF(g)
    ensures WF(r)
  {
    PruneByType(PruneByType(g, GENE, 1).0, RNA, 1).0
  }

  /** Pruning only ever removes genes and RNAs: every other node keeps its
      dictionary, and every edge between two such nodes stays. */
  lemma PruneKeepsOthers(g: Graph, n: Node)
    requires WF(g)
    requires n in g.attrs && !HasFunction(g.attrs[n], GENE) && !HasFunction(g.attrs[n], RNA)
    ensures n in Prune(g).attrs && Prune(g).attrs[n] == g.attrs[n]
  {
    PruneByTypeSpec(g, GENE, 1);
    var g1 := PruneByType(g, GENE, 1).0;
    assert n in g1.attrs && g1.attrs[n] == g.attrs[n];
    PruneByTypeSpec(g1, RNA, 1);
  }

  lemma PruneKeepsEdges(g: Graph, e: Edge)
    requires WF(g)
    requires e in g.edges
    requires !HasFunction(g.attrs[e.u], GENE) && !HasFunction(g.attrs[e.u], RNA)
    requires !HasFunction(g.attrs[e.v], GENE) && !HasFunction(g.attrs[e.v], RNA)
    ensures e in Prune(g).edges
  {
    PruneByTypeSpec(g, GENE, 1);
    var g1 := PruneByType(g, GENE, 1).0;
    assert e in g1.edges && g1.attrs[e.u] == g.attrs[e.u] && g1.attrs[e.v] == g.attrs[e.v];
    PruneByTypeSpec(g1, RNA, 1);
  }
}
