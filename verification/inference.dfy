/** Central-dogma inference (`infer_central_dogmatic_translations`,
    `infer_central_dogmatic_transcriptions`, `infer_central_dogma`) and the
    inverse-edge axioms of `add_inferred_edges`. */
module Inference {
  import opened Wrappers
  import opened Seqs
  import opened BelGraph

  /** PyBEL's node convention: the first element of a node tuple is the
      node's function, and its dictionary says the same. */
  predicate Consistent(g: Graph) {
    forall n :: n in g.attrs ==> |n| > 0 && FUNCTION in g.attrs[n] && g.attrs[n][FUNCTION] == Str(n[0])
  }

  /** The node tuple with its function replaced. */
  function Relabel(n: Node, f: string): (m: Node)
    requires |n| > 0
    ensures |m| == |n| && m[0] == f
  {
    n[0 := f]
  }

  lemma RelabelInjective(n1: Node, n2: Node, f: string)
    requires |n1| > 0 && |n2| > 0 && n1[0] == n2[0]
    requires Relabel(n1, f) == Relabel(n2, f)
    ensures n1 == n2
  {
    assert forall i :: 0 < i < |n1| ==> n1[i] == Relabel(n1, f)[i] == Relabel(n2, f)[i] == n2[i];
  }

  /** `_infer_converter_helper(node, data, f)`: the tuple and the dictionary
      with the function replaced; an empty tuple has no function to replace. */
  function Converted(n: Node, data: Attrs, f: string): (r: Result<(Node, Attrs), Error>)
    ensures r.Failure? <==> |n| == 0
    ensures r.Success? ==> r.value.0 == Relabel(n, f)
    ensures r.Success? ==> r.value.1.Keys == data.Keys + {FUNCTION} && r.value.1[FUNCTION] == Str(f)
    ensures r.Success? ==> forall k :: k in data && k != FUNCTION ==> r.value.1[k] == data[k]
  {
    if |n| == 0 then Failure(IndexError("list assignment index out of range"))
    else Success((Relabel(n, f), data[FUNCTION := Str(f)]))
  }

  /** Converting back to the original function restores a consistent node
      and its dictionary. */
  lemma ConvertedRoundTrip(n: Node, data: Attrs, f: string)
    requires |n| > 0 && FUNCTION in data && data[FUNCTION] == Str(n[0])
    ensures Converted(n, data, f).Success?
    ensures var (m, d) := Converted(n, data, f).value;
      Converted(m, d, n[0]) == Success((n, data))
  {
    var (m, d) := Converted(n, data, f).value;
    assert m[0 := n[0]] == n;
    assert d[FUNCTION := Str(n[0])] == data;
  }

  /** A node the inference applies to: of function `from`, named, and
      without variants. */
  predicate Candidate(a: Attrs, from: string) {
    FUNCTION in a && a[FUNCTION] == Str(from) && NAME in a && VARIANTS !in a
  }

  /** The data of an inferred edge. */
  function RelationData(rel: string): Attrs {
    map[RELATION := Str(rel)]
  }

  /** One turn of the loop, at node `n`: reading `data[FUNCTION]` fails
      with a `KeyError` when the key is missing; a candidate gets its
      converted node and an edge from it with the fixed key `code`. */
  function InferAt(g: Graph, n: Node, from: string, to: string, rel: string, code: int): (r: Result<Graph, Error>)
    requires n in g.attrs
    ensures FUNCTION !in g.attrs[n] ==> r == Failure(KeyError(FUNCTION))
    ensures r.Success? ==> g.attrs.Keys <= r.value.attrs.Keys
    ensures r.Success? && WF(g) ==> WF(r.value)
    ensures r.Success? && r.value != g ==>
      |n| > 0 && forall x :: x in g.attrs && x != Relabel(n, to) ==> r.value.attrs[x] == g.attrs[x]
  {
    var data := g.attrs[n];
    if FUNCTION !in data then Failure(KeyError(FUNCTION))
    else if !Candidate(data, from) then Success(g)
    else
      var (m, d) :- Converted(n, data, to);
      var g1 := AddNode(g, m, d);
      Success(AddEdge(g1, m, n, code, RelationData(rel)))
  }

  /** The loop over a snapshot `ns` of the nodes; dictionaries are read
      as they are at each node's turn. */
  function InferEach(g: Graph, ns: seq<Node>, from: string, to: string, rel: string, code: int): (r: Result<Graph, Error>)
    requires forall n :: n in ns ==> n in g.attrs
    ensures r.Success? ==> g.attrs.Keys <= r.value.attrs.Keys
    ensures r.Success? && WF(g) ==> WF(r.value)
    decreases |ns|
  {
    if |ns| == 0 then Success(g)
    else
      var g1 :- InferAt(g, ns[0], from, to, rel, code);
      assert forall n :: n in ns[1..] ==> n in ns;
      InferEach(g1, ns[1..], from, to, rel, code)
  }

  /** `infer_central_dogmatic_translations(graph)`: every named protein
      without variants gets its RNA and a `translatedTo` edge to it;
      `code` is PyBEL's `unqualified_edge_code[TRANSLATED_TO]`. */
  function InferTranslations(g: Graph, code: int): (r: Result<Graph, Error>)
    requires WF(g)
    ensures r.Success? ==> WF(r.value)
  {
    InferEach(g, g.nodes, PROTEIN, RNA, TRANSLATED_TO, code)
  }

  /** `infer_central_dogmatic_transcriptions(graph)`: the same from RNAs to
      genes, with `transcribedTo` edges. */
  function InferTranscriptions(g: Graph, code: int): (r: Result<Graph, Error>)
    requires WF(g)
    ensures r.Success? ==> WF(r.value)
  {
    InferEach(g, g.nodes, RNA, GENE, TRANSCRIBED_TO, code)
  }

  /** `infer_central_dogma(graph)`: translations first, then transcriptions,
      so RNAs inferred from proteins get their genes too. */
  function InferCentralDogma(g: Graph, translationCode: int, transcriptionCode: int): (r: Result<Graph, Error>)
    requires WF(g)
    ensures r.Success? ==> WF(r.value)
  {
    var g1 :- InferTranslations(g, translationCode);
    InferTranscriptions(g1, transcriptionCode)
  }

  /** `n` is one of the nodes of `ns` the inference applies to, judged in `g`. */
  predicate IsSource(g: Graph, ns: seq<Node>, from: string, n: Node) {
    n in ns && n in g.attrs && Candidate(g.attrs[n], from)
  }

  /** `x` is the converted node of such a source. */
  predicate IsTarget(g: Graph, ns: seq<Node>, from: string, to: string, x: Node) {
    |x| > 0 && x[0] == to && IsSource(g, ns, from, Relabel(x, from))
  }

  lemma RelabelBack(n: Node, from: string, to: string)
    requires |n| > 0 && n[0] == from
    ensures Relabel(Relabel(n, to), from) == n
  {
  }

  /** Under the node convention the converted node of a source is a
      target, and every target is the converted node of its source. */
  lemma TargetOfSource(g: Graph, ns: seq<Node>, from: string, to: string, n: Node)
    requires Consistent(g) && IsSource(g, ns, from, n)
    ensures IsTarget(g, ns, from, to, Relabel(n, to))
  {
    RelabelBack(n, from, to);
  }

  /** The data an inferred edge ends up with: merged into an edge already
      in that slot, as networkx does for an existing key. */
  function InferredData(g: Graph, m: Node, n: Node, code: int, rel: string): Attrs {
    if HasEdge(g, m, n, code) then EdgeData(g, m, n, code).value + RelationData(rel) else RelationData(rel)
  }

  /** The dictionary `add_node(m, attr_dict=d)` leaves at `m`. */
  function Merged(g: Graph, m: Node, d: Attrs): Attrs {
    if m in g.attrs then g.attrs[m] + d else d
  }

  /** A turn at a candidate adds the converted node and the edge. */
  lemma InferAtUnfold(g: Graph, n: Node, from: string, to: string, rel: string, code: int)
    requires n in g.attrs && Candidate(g.attrs[n], from) && |n| > 0
    ensures var m := Relabel(n, to);
      InferAt(g, n, from, to, rel, code)
        == Success(AddEdge(AddNode(g, m, g.attrs[n][FUNCTION := Str(to)]), m, n, code, RelationData(rel)))
  {
  }

  /** What one turn at a candidate does to the nodes. */
  lemma InferAtNodes(g: Graph, n: Node, from: string, to: string, rel: string, code: int)
    requires Consistent(g)
    requires n in g.attrs && Candidate(g.attrs[n], from)
    ensures InferAt(g, n, from, to, rel, code).Success?
    ensures Consistent(InferAt(g, n, from, to, rel, code).value)
    ensures var r := InferAt(g, n, from, to, rel, code).value;
      forall x :: x in r.attrs <==> x in g.attrs || x == Relabel(n, to)
    ensures var r := InferAt(g, n, from, to, rel, code).value;
      var m := Relabel(n, to);
      r.attrs[m] == Merged(g, m, g.attrs[n][FUNCTION := Str(to)])
    ensures var r := InferAt(g, n, from, to, rel, code).value;
      forall x :: x in g.attrs && x != Relabel(n, to) ==> r.attrs[x] == g.attrs[x]
  {
    var m := Relabel(n, to);
    var d := g.attrs[n][FUNCTION := Str(to)];
    InferAtAttrs(g, n, from, to, rel, code);
    ConsistentAddNode(g, m, d);
  }

  /** A turn at a candidate has the dictionaries of adding the converted
      node alone: the edge joins two nodes already there. */
  lemma InferAtAttrs(g: Graph, n: Node, from: string, to: string, rel: string, code: int)
    requires Consistent(g)
    requires n in g.attrs && Candidate(g.attrs[n], from)
    ensures InferAt(g, n, from, to, rel, code).Success?
    ensures InferAt(g, n, from, to, rel, code).value.attrs
      == AddNode(g, Relabel(n, to), g.attrs[n][FUNCTION := Str(to)]).attrs
  {
    InferAtUnfold(g, n, from, to, rel, code);
    var m := Relabel(n, to);
    var g1 := AddNode(g, m, g.attrs[n][FUNCTION := Str(to)]);
    var g2 := AddEdge(g1, m, n, code, RelationData(rel));
    assert g2.attrs.Keys == g1.attrs.Keys;
    assert g2.attrs == g1.attrs;
  }

  lemma ConsistentAddNode(g: Graph, m: Node, d: Attrs)
    requires Consistent(g) && |m| > 0 && FUNCTION in d && d[FUNCTION] == Str(m[0])
    ensures Consistent(AddNode(g, m, d))
  {
    var r := AddNode(g, m, d);
    forall x | x in r.attrs
      ensures |x| > 0 && FUNCTION in r.attrs[x] && r.attrs[x][FUNCTION] == Str(x[0])
    {
      if x != m {
        assert r.attrs[x] == g.attrs[x];
      }
    }
  }

  /** What one turn at a candidate does to the edges. */
  lemma InferAtEdges(g: Graph, n: Node, from: string, to: string, rel: string, code: int)
    requires Consistent(g)
    requires n in g.attrs && Candidate(g.attrs[n], from)
    ensures var r := InferAt(g, n, from, to, rel, code);
      var m := Relabel(n, to);
      && r.Success?
      && EdgeData(r.value, m, n, code) == Some(InferredData(g, m, n, code, rel))
      && (forall x, y, j :: (x, y, j) != (m, n, code) ==> EdgeData(r.value, x, y, j) == EdgeData(g, x, y, j))
  {
    InferAtUnfold(g, n, from, to, rel, code);
    var m := Relabel(n, to);
    var g1 := AddNode(g, m, g.attrs[n][FUNCTION := Str(to)]);
    assert g1.edges == g.edges;
  }

  /** The first turn of the loop, as the graph `g1` the rest runs on. */
  lemma InferEachUnfold(g: Graph, ns: seq<Node>, from: string, to: string, rel: string, code: int) returns (g1: Graph)
    requires Consistent(g) && from != to
    requires Distinct(ns) && |ns| > 0 && forall n :: n in ns ==> n in g.attrs
    ensures Consistent(g1)
    ensures Distinct(ns[1..]) && forall n :: n in ns[1..] ==> n in g1.attrs
    ensures InferEach(g, ns, from, to, rel, code) == InferEach(g1, ns[1..], from, to, rel, code)
    ensures !Candidate(g.attrs[ns[0]], from) ==> g1 == g
    ensures Candidate(g.attrs[ns[0]], from) ==> g1 == InferAt(g, ns[0], from, to, rel, code).value
  {
    var n0 := ns[0];
    assert forall n :: n in ns[1..] ==> n in ns;
    if !Candidate(g.attrs[n0], from) {
      assert InferAt(g, n0, from, to, rel, code) == Success(g);
      g1 := g;
    } else {
      InferAtNodes(g, n0, from, to, rel, code);
      g1 := InferAt(g, n0, from, to, rel, code).value;
    }
  }

  /** Which nodes of the rest of the loop are sources: the same as before
      the first turn, whose own node is not among them, and their
      dictionaries are unchanged. */
  lemma SourcesStep(g: Graph, g1: Graph, ns: seq<Node>, from: string, to: string)
    requires Consistent(g) && Consistent(g1) && from != to
    requires Distinct(ns) && |ns| > 0 && forall n :: n in ns ==> n in g.attrs
    requires Candidate(g.attrs[ns[0]], from) ==>
      && (forall x :: x in g1.attrs <==> x in g.attrs || x == Relabel(ns[0], to))
      && (forall x :: x in g.attrs && x != Relabel(ns[0], to) ==> g1.attrs[x] == g.attrs[x])
    requires !Candidate(g.attrs[ns[0]], from) ==> g1 == g
    ensures forall n :: IsSource(g, ns, from, n) <==> IsSource(g1, ns[1..], from, n) || (n == ns[0] && Candidate(g.attrs[ns[0]], from))
    ensures !IsSource(g1, ns[1..], from, ns[0])
    ensures forall n :: IsSource(g1, ns[1..], from, n) ==> g1.attrs[n] == g.attrs[n]
  {
    var n0 := ns[0];
    assert forall n :: n in ns <==> n == n0 || n in ns[1..];
    assert n0 !in ns[1..];
  }

  /** With the node convention in place the loop never fails, and its
      nodes are the old ones plus the converted candidates. */
  lemma {:induction false} InferEachNodes(g: Graph, ns: seq<Node>, from: string, to: string, rel: string, code: int)
    requires Consistent(g) && from != to
    requires Distinct(ns) && forall n :: n in ns ==> n in g.attrs
    ensures InferEach(g, ns, from, to, rel, code).Success?
    ensures Consistent(InferEach(g, ns, from, to, rel, code).value)
    ensures var r := InferEach(g, ns, from, to, rel, code).value;
      forall x :: x in r.attrs <==> x in g.attrs || IsTarget(g, ns, from, to, x)
    decreases |ns|
  {
    if |ns| > 0 {
      var n0 := ns[0];
      var g1 := InferEachUnfold(g, ns, from, to, rel, code);
      InferEachNodes(g1, ns[1..], from, to, rel, code);
      if Candidate(g.attrs[n0], from) {
        InferAtNodes(g, n0, from, to, rel, code);
        RelabelBack(n0, from, to);
      }
      SourcesStep(g, g1, ns, from, to);
      forall x | |x| > 0 && x[0] == to
        ensures IsTarget(g, ns, from, to, x) <==> IsTarget(g1, ns[1..], from, to, x) || (Candidate(g.attrs[n0], from) && x == Relabel(n0, to))
      {
        if Relabel(x, from) == n0 {
          RelabelBack(x, to, from);
        }
      }
    }
  }

  /** Every dictionary other than the converted nodes' is left as it was. */
  lemma {:induction false} InferEachKeeps(g: Graph, ns: seq<Node>, from: string, to: string, rel: string, code: int)
    requires Consistent(g) && from != to
    requires Distinct(ns) && forall n :: n in ns ==> n in g.attrs
    ensures InferEach(g, ns, from, to, rel, code).Success?
    ensures var r := InferEach(g, ns, from, to, rel, code).value;
      forall x :: x in g.attrs && !IsTarget(g, ns, from, to, x) ==> x in r.attrs && r.attrs[x] == g.attrs[x]
    decreases |ns|
  {
    InferEachNodes(g, ns, from, to, rel, code);
    if |ns| > 0 {
      var n0 := ns[0];
      var g1 := InferEachUnfold(g, ns, from, to, rel, code);
      InferEachKeeps(g1, ns[1..], from, to, rel, code);
      if Candidate(g.attrs[n0], from) {
        InferAtNodes(g, n0, from, to, rel, code);
        TargetOfSource(g, ns, from, to, n0);
        SourcesStep(g, g1, ns, from, to);
      } else {
        SourcesStep(g, g1, ns, from, to);
      }
    }
  }

  /** Every converted node's dictionary is its old one, if any, updated
      with its source's, which carries the new function. */
  lemma {:induction false} InferEachTargets(g: Graph, ns: seq<Node>, from: string, to: string, rel: string, code: int)
    requires Consistent(g) && from != to
    requires Distinct(ns) && forall n :: n in ns ==> n in g.attrs
    ensures InferEach(g, ns, from, to, rel, code).Success?
    ensures var r := InferEach(g, ns, from, to, rel, code).value;
      forall n :: IsSource(g, ns, from, n) ==>
        Relabel(n, to) in r.attrs && r.attrs[Relabel(n, to)] == Merged(g, Relabel(n, to), g.attrs[n][FUNCTION := Str(to)])
    decreases |ns|
  {
    InferEachNodes(g, ns, from, to, rel, code);
    if |ns| > 0 {
      var n0 := ns[0];
      var g1 := InferEachUnfold(g, ns, from, to, rel, code);
      InferEachTargets(g1, ns[1..], from, to, rel, code);
      if Candidate(g.attrs[n0], from) {
        var m0 := Relabel(n0, to);
        InferAtNodes(g, n0, from, to, rel, code);
        SourcesStep(g, g1, ns, from, to);
        InferEachKeeps(g1, ns[1..], from, to, rel, code);
        RelabelBack(n0, from, to);
        assert !IsTarget(g1, ns[1..], from, to, m0);
        forall n | IsSource(g1, ns[1..], from, n)
          ensures Relabel(n, to) != m0
        {
          if Relabel(n, to) == m0 {
            RelabelInjective(n, n0, to);
          }
        }
        TargetsCombine(g, g1, InferEach(g1, ns[1..], from, to, rel, code).value.attrs, ns, from, to);
      } else {
        SourcesStep(g, g1, ns, from, to);
      }
    }
  }

  /** The candidate step of InferEachTargets: the first node's converted
      dictionary is settled by its own turn, every later source's by the
      rest of the loop, and the two kinds of converted node differ. */
  lemma TargetsCombine(g: Graph, g1: Graph, ra: map<Node, Attrs>, ns: seq<Node>, from: string, to: string)
    requires Consistent(g) && Consistent(g1) && |ns| > 0 && ns[0] in g.attrs
    requires forall x :: x in g1.attrs <==> x in g.attrs || x == Relabel(ns[0], to)
    requires forall x :: x in g.attrs && x != Relabel(ns[0], to) ==> g1.attrs[x] == g.attrs[x]
    requires Relabel(ns[0], to) in ra
    requires ra[Relabel(ns[0], to)] == Merged(g, Relabel(ns[0], to), g.attrs[ns[0]][FUNCTION := Str(to)])
    requires forall n :: IsSource(g1, ns[1..], from, n) ==>
               Relabel(n, to) in ra && ra[Relabel(n, to)] == Merged(g1, Relabel(n, to), g1.attrs[n][FUNCTION := Str(to)])
    requires forall n :: IsSource(g1, ns[1..], from, n) ==> Relabel(n, to) != Relabel(ns[0], to) && g1.attrs[n] == g.attrs[n]
    requires forall n :: IsSource(g, ns, from, n) ==> IsSource(g1, ns[1..], from, n) || n == ns[0]
    ensures forall n :: IsSource(g, ns, from, n) ==>
              Relabel(n, to) in ra && ra[Relabel(n, to)] == Merged(g, Relabel(n, to), g.attrs[n][FUNCTION := Str(to)])
  {
    forall n | IsSource(g, ns, from, n) && n != ns[0]
      ensures Relabel(n, to) in ra && ra[Relabel(n, to)] == Merged(g, Relabel(n, to), g.attrs[n][FUNCTION := Str(to)])
    {
      var m := Relabel(n, to);
      assert m in g1.attrs <==> m in g.attrs;
      assert Merged(g1, m, g.attrs[n][FUNCTION := Str(to)]) == Merged(g, m, g.attrs[n][FUNCTION := Str(to)]);
    }
  }

  /** Every candidate gains the edge from its converted node with key
      `code` and relation `rel`. */
  lemma {:induction false} InferEachEdges(g: Graph, ns: seq<Node>, from: string, to: string, rel: string, code: int)
    requires Consistent(g) && from != to
    requires Distinct(ns) && forall n :: n in ns ==> n in g.attrs
    ensures InferEach(g, ns, from, to, rel, code).Success?
    ensures var r := InferEach(g, ns, from, to, rel, code).value;
      forall n :: IsSource(g, ns, from, n) ==>
        EdgeData(r, Relabel(n, to), n, code) == Some(InferredData(g, Relabel(n, to), n, code, rel))
    decreases |ns|
  {
    InferEachNodes(g, ns, from, to, rel, code);
    if |ns| > 0 {
      var n0 := ns[0];
      var g1 := InferEachUnfold(g, ns, from, to, rel, code);
      InferEachEdges(g1, ns[1..], from, to, rel, code);
      if Candidate(g.attrs[n0], from) {
        InferAtNodes(g, n0, from, to, rel, code);
        SourcesStep(g, g1, ns, from, to);
        InferAtEdges(g, n0, from, to, rel, code);
        InferEachSlots(g1, ns[1..], from, to, rel, code);
      } else {
        SourcesStep(g, g1, ns, from, to);
      }
    }
  }

  /** No edge slot other than the inferred ones changes. */
  lemma {:induction false} InferEachSlots(g: Graph, ns: seq<Node>, from: string, to: string, rel: string, code: int)
    requires Consistent(g) && from != to
    requires Distinct(ns) && forall n :: n in ns ==> n in g.attrs
    ensures InferEach(g, ns, from, to, rel, code).Success?
    ensures var r := InferEach(g, ns, from, to, rel, code).value;
      forall x, y, j :: !(IsSource(g, ns, from, y) && j == code && x == Relabel(y, to)) ==>
        EdgeData(r, x, y, j) == EdgeData(g, x, y, j)
    decreases |ns|
  {
    InferEachNodes(g, ns, from, to, rel, code);
    if |ns| > 0 {
      var n0 := ns[0];
      var g1 := InferEachUnfold(g, ns, from, to, rel, code);
      InferEachSlots(g1, ns[1..], from, to, rel, code);
      if Candidate(g.attrs[n0], from) {
        InferAtNodes(g, n0, from, to, rel, code);
        SourcesStep(g, g1, ns, from, to);
        InferAtEdges(g, n0, from, to, rel, code);
      } else {
        SourcesStep(g, g1, ns, from, to);
      }
    }
  }

  /** A node without a function makes the loop fail, unless it is the
      converted node of another node of the loop, whose turn may create
      its dictionary first. */
  lemma {:induction false} InferEachMissingFunction(g: Graph, ns: seq<Node>, from: string, to: string, rel: string, code: int, n: Node)
    requires forall x :: x in ns ==> x in g.attrs
    requires n in ns && FUNCTION !in g.attrs[n]
    requires forall x :: x in ns && |x| > 0 ==> Relabel(x, to) != n
    ensures InferEach(g, ns, from, to, rel, code).Failure?
    decreases |ns|
  {
    if ns[0] != n {
      var r := InferAt(g, ns[0], from, to, rel, code);
      if r.Success? {
        assert forall x :: x in ns[1..] ==> x in ns;
        InferEachMissingFunction(r.value, ns[1..], from, to, rel, code, n);
      }
    }
  }

  /** An edge that is there and carries relation `rel`. */
  predicate Carries(d: Option<Attrs>, rel: string) {
    d.Some? && RELATION in d.value && d.value[RELATION] == Str(rel)
  }

  lemma InferredRelation(g: Graph, m: Node, n: Node, code: int, rel: string)
    ensures Carries(Some(InferredData(g, m, n, code, rel)), rel)
  {
  }

  /** The loop over all nodes, stated for the nodes of the graph. */
  lemma InferTopLevel(g: Graph, from: string, to: string, rel: string, code: int)
    requires WF(g) && Consistent(g) && from != to
    ensures InferEach(g, g.nodes, from, to, rel, code).Success?
    ensures var r := InferEach(g, g.nodes, from, to, rel, code).value;
      forall x :: x in r.attrs <==> x in g.attrs || IsTarget(g, g.nodes, from, to, x)
    ensures var r := InferEach(g, g.nodes, from, to, rel, code).value;
      forall n :: n in g.attrs && Candidate(g.attrs[n], from) ==>
        Carries(EdgeData(r, Relabel(n, to), n, code), rel)
  {
    var ns := g.nodes;
    assert Distinct(ns) && forall n :: n in ns ==> n in g.attrs;
    InferEachNodes(g, ns, from, to, rel, code);
    InferEachEdges(g, ns, from, to, rel, code);
    var r := InferEach(g, ns, from, to, rel, code).value;
    forall n | n in g.attrs && Candidate(g.attrs[n], from)
      ensures Carries(EdgeData(r, Relabel(n, to), n, code), rel)
    {
      assert IsSource(g, ns, from, n);
      InferredRelation(g, Relabel(n, to), n, code, rel);
    }
  }

  /** Translation inference: every named protein without variants gains
      its RNA and a `translatedTo` edge from it; no other node is added. */
  lemma InferTranslationsSpec(g: Graph, code: int)
    requires WF(g) && Consistent(g)
    ensures InferTranslations(g, code).Success?
    ensures var r := InferTranslations(g, code).value;
      forall x :: x in r.attrs <==> x in g.attrs || IsTarget(g, g.nodes, PROTEIN, RNA, x)
    ensures var r := InferTranslations(g, code).value;
      forall n :: n in g.attrs && Candidate(g.attrs[n], PROTEIN) ==>
        Carries(EdgeData(r, Relabel(n, RNA), n, code), TRANSLATED_TO)
  {
    InferTopLevel(g, PROTEIN, RNA, TRANSLATED_TO, code);
  }

  /** Transcription inference: every named RNA without variants gains its
      gene and a `transcribedTo` edge from it; no other node is added. */
  lemma InferTranscriptionsSpec(g: Graph, code: int)
    requires WF(g) && Consistent(g)
    ensures InferTranscriptions(g, code).Success?
    ensures var r := InferTranscriptions(g, code).value;
      forall x :: x in r.attrs <==> x in g.attrs || IsTarget(g, g.nodes, RNA, GENE, x)
    ensures var r := InferTranscriptions(g, code).value;
      forall n :: n in g.attrs && Candidate(g.attrs[n], RNA) ==>
        Carries(EdgeData(r, Relabel(n, GENE), n, code), TRANSCRIBED_TO)
  {
    InferTopLevel(g, RNA, GENE, TRANSCRIBED_TO, code);
  }

  /** Because translations come first, a named protein without variants
      whose RNA is missing ends with the whole chain: gene `transcribedTo`
      RNA `translatedTo` protein. */
  lemma InferCentralDogmaChain(g: Graph, translationCode: int, transcriptionCode: int, n: Node)
    requires WF(g) && Consistent(g)
    requires n in g.attrs && Candidate(g.attrs[n], PROTEIN) && Relabel(n, RNA) !in g.attrs
    ensures InferCentralDogma(g, translationCode, transcriptionCode).Success?
    ensures var r := InferCentralDogma(g, translationCode, transcriptionCode).value;
      var rna := Relabel(n, RNA);
      var gene := Relabel(rna, GENE);
      && EdgeData(r, rna, n, translationCode) == Some(RelationData(TRANSLATED_TO))
      && Carries(EdgeData(r, gene, rna, transcriptionCode), TRANSCRIBED_TO)
  {
    var rna := Relabel(n, RNA);
    InferEachNodes(g, g.nodes, PROTEIN, RNA, TRANSLATED_TO, translationCode);
    InferEachTargets(g, g.nodes, PROTEIN, RNA, TRANSLATED_TO, translationCode);
    InferEachEdges(g, g.nodes, PROTEIN, RNA, TRANSLATED_TO, translationCode);
    var g1 := InferTranslations(g, translationCode).value;
    assert !HasEdge(g, rna, n, translationCode);
    assert g1.attrs[rna] == g.attrs[n][FUNCTION := Str(RNA)];
    assert Candidate(g1.attrs[rna], RNA);
    InferTranscriptionsSpec(g1, transcriptionCode);
    InferEachSlots(g1, g1.nodes, RNA, GENE, TRANSCRIBED_TO, transcriptionCode);
    assert !IsSource(g1, g1.nodes, RNA, n);
  }

  const HAS_PRODUCT := "hasProduct"
  const HAS_REACTANT := "hasReactant"
  const HAS_VARIANT := "hasVariant"
  const HAS_COMPONENT := "hasComponent"

  /** `INFERRED_INVERSE`: the relations whose inverse can be inferred. */
  const InferredInverse: map<string, string> := map[
    HAS_PRODUCT := "isProductOf",
    HAS_REACTANT := "isReactantOf",
    HAS_VARIANT := "isVariantOf",
    HAS_COMPONENT := "isComponentOf",
    TRANSCRIBED_TO := "transcribedFrom",
    TRANSLATED_TO := "translatedFrom"
  ]

  /** `relations` is either a single relation name or a list of them. */
  datatype Relations = Single(name: string) | Several(names: seq<string>)

  /** `graph.edges_iter(relation=r)`: the edges whose relation is `r`. */
  function WithRelation(es: seq<Edge>, r: string): (s: seq<Edge>)
    ensures forall e :: e in s <==> e in es && RELATION in e.data && e.data[RELATION] == Str(r)
  {
    Filter(es, (e: Edge) => RELATION in e.data && e.data[RELATION] == Str(r))
  }

  /** The inner loop for one relation `r` over a snapshot `es` of its
      edges: each gets its reverse edge, keyed by `codes[r]` and carrying
      the inverse relation; both lookups fail with a `KeyError` at the
      first edge when `r` is missing from the tables. */
  function AddInverses(g: Graph, es: seq<Edge>, r: string, codes: map<string, int>): (res: Result<Graph, Error>)
    requires forall e :: e in es ==> e.u in g.attrs && e.v in g.attrs
    ensures |es| > 0 && (r !in codes || r !in InferredInverse) ==> res == Failure(KeyError(r))
    ensures res.Success? ==> res.value.attrs == g.attrs
    ensures res.Success? && WF(g) ==> WF(res.value)
    decreases |es|
  {
    if |es| == 0 then Success(g)
    else if r !in codes then Failure(KeyError(r))
    else if r !in InferredInverse then Failure(KeyError(r))
    else
      var g1 := AddEdge(g, es[0].v, es[0].u, codes[r], RelationData(InferredInverse[r]));
      assert g1.attrs == g.attrs;
      assert forall e :: e in es[1..] ==> e in es;
      AddInverses(g1, es[1..], r, codes)
  }

  /** The first turn of the inner loop, as the graph the rest runs on. */
  lemma AddInversesUnfold(g: Graph, es: seq<Edge>, r: string, codes: map<string, int>) returns (g1: Graph)
    requires |es| > 0 && forall e :: e in es ==> e.u in g.attrs && e.v in g.attrs
    requires r in codes && r in InferredInverse
    ensures g1.attrs == g.attrs
    ensures forall e :: e in es[1..] ==> e.u in g1.attrs && e.v in g1.attrs
    ensures AddInverses(g, es, r, codes) == AddInverses(g1, es[1..], r, codes)
    ensures Carries(EdgeData(g1, es[0].v, es[0].u, codes[r]), InferredInverse[r])
    ensures forall x, y, j :: (x, y, j) != (es[0].v, es[0].u, codes[r]) ==> EdgeData(g1, x, y, j) == EdgeData(g, x, y, j)
  {
    g1 := AddEdge(g, es[0].v, es[0].u, codes[r], RelationData(InferredInverse[r]));
    assert g1.attrs == g.attrs;
    assert forall e :: e in es[1..] ==> e in es;
  }

  /** No edge slot other than the reverse ones changes. */
  lemma {:induction false} AddInversesKeeps(g: Graph, es: seq<Edge>, r: string, codes: map<string, int>)
    requires forall e :: e in es ==> e.u in g.attrs && e.v in g.attrs
    requires r in codes && r in InferredInverse
    ensures AddInverses(g, es, r, codes).Success?
    ensures var res := AddInverses(g, es, r, codes).value;
      forall x, y, j :: (j != codes[r] || forall e :: e in es ==> (e.v, e.u) != (x, y)) ==>
        EdgeData(res, x, y, j) == EdgeData(g, x, y, j)
    decreases |es|
  {
    if |es| > 0 {
      var g1 := AddInversesUnfold(g, es, r, codes);
      assert forall e :: e in es[1..] ==> e in es;
      AddInversesKeeps(g1, es[1..], r, codes);
    }
  }

  /** Every edge of `es` has its reverse, carrying the inverse relation. */
  lemma {:induction false} AddInversesSpec(g: Graph, es: seq<Edge>, r: string, codes: map<string, int>)
    requires forall e :: e in es ==> e.u in g.attrs && e.v in g.attrs
    requires r in codes && r in InferredInverse
    ensures AddInverses(g, es, r, codes).Success?
    ensures var res := AddInverses(g, es, r, codes).value;
      forall e :: e in es ==> Carries(EdgeData(res, e.v, e.u, codes[r]), InferredInverse[r])
    decreases |es|
  {
    if |es| > 0 {
      var e0 := es[0];
      var g1 := AddInversesUnfold(g, es, r, codes);
      AddInversesSpec(g1, es[1..], r, codes);
      AddInversesKeeps(g1, es[1..], r, codes);
      assert forall e :: e in es <==> e == e0 || e in es[1..];
    }
  }

  /** The outer loop over the relations. */
  function AddInferredFor(g: Graph, rs: seq<string>, codes: map<string, int>): (res: Result<Graph, Error>)
    requires WF(g)
    ensures res.Success? ==> WF(res.value) && res.value.attrs == g.attrs
    decreases |rs|
  {
    if |rs| == 0 then Success(g)
    else
      var g1 :- AddInverses(g, WithRelation(g.edges, rs[0]), rs[0], codes);
      AddInferredFor(g1, rs[1..], codes)
  }

  /** `add_inferred_edges(graph, relations)`: a single name is handled as a
      one-element list. */
  function AddInferredEdges(g: Graph, relations: Relations, codes: map<string, int>): (res: Result<Graph, Error>)
    requires WF(g)
    ensures res.Success? ==> WF(res.value) && res.value.attrs == g.attrs
  {
    match relations
    case Single(r) => AddInferredFor(g, [r], codes)
    case Several(rs) => AddInferredFor(g, rs, codes)
  }

  /** A single name runs the inner loop once over the edges carrying it. */
  lemma SingleIsInverses(g: Graph, r: string, codes: map<string, int>)
    requires WF(g)
    ensures AddInferredEdges(g, Single(r), codes) == AddInferredEdges(g, Several([r]), codes)
    ensures AddInferredEdges(g, Single(r), codes) == AddInverses(g, WithRelation(g.edges, r), r, codes)
  {
    var es := WithRelation(g.edges, r);
    assert [r][1..] == [];
    var first := AddInverses(g, es, r, codes);
    if first.Success? {
      assert AddInferredFor(first.value, [], codes) == Success(first.value);
    }
  }

  /** For one relation: every edge carrying it gains its reverse with the
      inverse relation and nothing else changes; a relation with no
      inverse fails as soon as one edge carries it, and one no edge
      carries changes nothing. A single name behaves as a one-element
      list. */
  lemma AddInferredSingle(g: Graph, r: string, codes: map<string, int>)
    requires WF(g)
    ensures AddInferredEdges(g, Single(r), codes) == AddInferredEdges(g, Several([r]), codes)
    ensures var res := AddInferredEdges(g, Single(r), codes);
      && (WithRelation(g.edges, r) == [] ==> res == Success(g))
      && (WithRelation(g.edges, r) != [] && (r !in codes || r !in InferredInverse) ==> res == Failure(KeyError(r)))
      && (r in codes && r in InferredInverse ==>
            && res.Success?
            && (forall e :: e in g.edges && RELATION in e.data && e.data[RELATION] == Str(r) ==>
                  Carries(EdgeData(res.value, e.v, e.u, codes[r]), InferredInverse[r]))
            && (forall x, y, j :: j != codes[r] ==> EdgeData(res.value, x, y, j) == EdgeData(g, x, y, j)))
  {
    var es := WithRelation(g.edges, r);
    SingleIsInverses(g, r, codes);
    if r in codes && r in InferredInverse {
      AddInversesSpec(g, es, r, codes);
      AddInversesKeeps(g, es, r, codes);
    }
  }


  /** With every relation in both tables the loop over several relations
      succeeds, and only slots keyed by one of their codes change. */
  lemma {:induction false} AddInferredForKeeps(g: Graph, rs: seq<string>, codes: map<string, int>)
    requires WF(g)
    requires forall r :: r in rs ==> r in codes && r in InferredInverse
    ensures AddInferredFor(g, rs, codes).Success?
    ensures var res := AddInferredFor(g, rs, codes).value;
      forall x, y, j :: (forall r :: r in rs ==> j != codes[r]) ==> EdgeData(res, x, y, j) == EdgeData(g, x, y, j)
    decreases |rs|
  {
    if |rs| > 0 {
      var es := WithRelation(g.edges, rs[0]);
      AddInversesKeeps(g, es, rs[0], codes);
      var g1 := AddInverses(g, es, rs[0], codes).value;
      assert forall r :: r in rs[1..] ==> r in rs;
      AddInferredForKeeps(g1, rs[1..], codes);
    }
  }

  /** The inner loop for one relation `r` as the source runs it, over
      `slots`, the edges of the graph when the loop starts, in iteration
      order. `graph.edges_iter(relation=r)` is a lazy generator: it reads
      an edge's data only when it reaches it, so an edge that an earlier
      turn rewrote into an inverse edge no longer matches. The edges the
      loop adds carry the inverse relation, never `r`, so none of them
      would match. Under Python 3, a new key in the self-loop dictionary
      `adj[u][u]` being walked makes the generator raise `RuntimeError`
      when it resumes. */
  function AddInversesAsWritten(g: Graph, slots: seq<Edge>, r: string, codes: map<string, int>): (res: Result<Graph, Error>)
    requires WF(g)
    ensures res.Success? ==> WF(res.value) && res.value.attrs == g.attrs
    ensures res.Failure? ==> res.error == KeyError(r) || res.error == RuntimeError(CHANGED_SIZE)
    decreases |slots|
  {
    if |slots| == 0 then Success(g)
    else
      var e := slots[0];
      if !Carries(EdgeData(g, e.u, e.v, e.key), r) then AddInversesAsWritten(g, slots[1..], r, codes)
      else if r !in codes || r !in InferredInverse then Failure(KeyError(r))
      else if e.u == e.v && !HasEdge(g, e.u, e.u, codes[r]) then Failure(RuntimeError(CHANGED_SIZE))
      else
        assert Edge(e.u, e.v, e.key, EdgeData(g, e.u, e.v, e.key).value) in g.edges;
        var g1 := AddEdge(g, e.v, e.u, codes[r], RelationData(InferredInverse[r]));
        assert g1.attrs == g.attrs;
        AddInversesAsWritten(g1, slots[1..], r, codes)
  }

  /** The outer loop over the relations, as written. */
  function AddInferredForAsWritten(g: Graph, rs: seq<string>, codes: map<string, int>): (res: Result<Graph, Error>)
    requires WF(g)
    ensures res.Success? ==> WF(res.value) && res.value.attrs == g.attrs
    ensures res.Failure? ==> (res.error.KeyError? && res.error.what in rs) || res.error == RuntimeError(CHANGED_SIZE)
    decreases |rs|
  {
    if |rs| == 0 then Success(g)
    else
      var g1 :- AddInversesAsWritten(g, g.edges, rs[0], codes);
      AddInferredForAsWritten(g1, rs[1..], codes)
  }

  /** `add_inferred_edges(graph, relations)` as written. */
  function AddInferredEdgesAsWritten(g: Graph, relations: Relations, codes: map<string, int>): (res: Result<Graph, Error>)
    requires WF(g)
    ensures res.Success? ==> WF(res.value) && res.value.attrs == g.attrs
    ensures res.Failure? && res.error.KeyError? && relations.Single? ==> res.error.what == relations.name
    ensures res.Failure? && res.error.KeyError? && relations.Several? ==> res.error.what in relations.names
    ensures res.Failure? ==> res.error.KeyError? || res.error == RuntimeError(CHANGED_SIZE)
  {
    match relations
    case Single(r) => AddInferredForAsWritten(g, [r], codes)
    case Several(rs) => AddInferredForAsWritten(g, rs, codes)
  }

  /** A relation missing from the code table can only be passed over: the
      loop succeeds just when no slot carries it, and then changes nothing. */
  lemma {:induction false} AsWrittenNoCode(g: Graph, slots: seq<Edge>, r: string, codes: map<string, int>)
    requires WF(g) && r !in codes && AddInversesAsWritten(g, slots, r, codes).Success?
    ensures AddInversesAsWritten(g, slots, r, codes).value == g
    decreases |slots|
  {
    if |slots| > 0 {
      AsWrittenNoCode(g, slots[1..], r, codes);
    }
  }

  /** Over all the relations, as written: a successful run changes no slot
      whose key is not the code of one of the listed relations. */
  lemma {:induction false} AddInferredForAsWrittenKeeps(g: Graph, rs: seq<string>, codes: map<string, int>)
    requires WF(g) && AddInferredForAsWritten(g, rs, codes).Success?
    ensures forall x, y, j :: (forall r :: r in rs && r in codes ==> j != codes[r]) ==>
              EdgeData(AddInferredForAsWritten(g, rs, codes).value, x, y, j) == EdgeData(g, x, y, j)
    decreases |rs|
  {
    if |rs| > 0 {
      var g1 := AddInversesAsWritten(g, g.edges, rs[0], codes).value;
      if rs[0] in codes {
        AsWrittenKeeps(g, g.edges, rs[0], codes);
      } else {
        AsWrittenNoCode(g, g.edges, rs[0], codes);
      }
      AddInferredForAsWrittenKeeps(g1, rs[1..], codes);
      forall x, y, j | forall r :: r in rs && r in codes ==> j != codes[r]
        ensures EdgeData(AddInferredForAsWritten(g, rs, codes).value, x, y, j) == EdgeData(g, x, y, j)
      {
        assert forall r :: r in rs[1..] ==> r in rs;
      }
    }
  }

  /** The turn at `f` would raise: `f` is a self-loop still carrying `r`
      and its node has no edge to itself under the code yet. */
  predicate TrapAt(g: Graph, f: Edge, r: string, code: int) {
    f.u == f.v && Carries(EdgeData(g, f.u, f.v, f.key), r) && !HasEdge(g, f.u, f.u, code)
  }

  predicate Trapped(g: Graph, slots: seq<Edge>, r: string, code: int) {
    exists f :: f in slots && TrapAt(g, f, r, code)
  }

  /** A turn that does not raise leaves every other slot's verdict as it
      was: a rewritten slot is keyed by the code, so it could not raise. */
  lemma TrapStep(g: Graph, e: Edge, r: string, code: int, inv: string, f: Edge)
    requires e.u == e.v ==> HasEdge(g, e.u, e.u, code)
    ensures TrapAt(AddEdge(g, e.v, e.u, code, RelationData(inv)), f, r, code) <==> TrapAt(g, f, r, code)
  {
  }

  lemma TrappedStep(g: Graph, e: Edge, rest: seq<Edge>, r: string, code: int, inv: string)
    requires e.u == e.v ==> HasEdge(g, e.u, e.u, code)
    ensures Trapped(AddEdge(g, e.v, e.u, code, RelationData(inv)), rest, r, code) <==> Trapped(g, rest, r, code)
  {
    forall f | f in rest
      ensures TrapAt(AddEdge(g, e.v, e.u, code, RelationData(inv)), f, r, code) <==> TrapAt(g, f, r, code)
    {
      TrapStep(g, e, r, code, inv, f);
    }
  }

  lemma TrappedCons(g: Graph, slots: seq<Edge>, r: string, code: int)
    requires |slots| > 0
    ensures Trapped(g, slots, r, code) <==> TrapAt(g, slots[0], r, code) || Trapped(g, slots[1..], r, code)
  {
    assert forall f :: f in slots <==> f == slots[0] || f in slots[1..];
  }

  /** With `r` in both tables, the loop as written raises exactly when a
      self-loop carrying `r` has no edge to itself under the code, and
      then with `RuntimeError`. */
  lemma {:induction false} AsWrittenRaises(g: Graph, slots: seq<Edge>, r: string, codes: map<string, int>)
    requires WF(g) && r in codes && r in InferredInverse
    ensures AddInversesAsWritten(g, slots, r, codes).Success? <==> !Trapped(g, slots, r, codes[r])
    ensures AddInversesAsWritten(g, slots, r, codes).Failure? ==> AddInversesAsWritten(g, slots, r, codes).error == RuntimeError(CHANGED_SIZE)
    decreases |slots|
  {
    if |slots| > 0 {
      var e := slots[0];
      var code := codes[r];
      TrappedCons(g, slots, r, code);
      if !Carries(EdgeData(g, e.u, e.v, e.key), r) {
        AsWrittenRaises(g, slots[1..], r, codes);
      } else if !TrapAt(g, e, r, code) {
        TrappedStep(g, e, slots[1..], r, code, InferredInverse[r]);
        AsWrittenRaises(AddEdge(g, e.v, e.u, code, RelationData(InferredInverse[r])), slots[1..], r, codes);
      }
    }
  }

  /** Writing the relation `rel` into a slot leaves every slot that
      carries it carrying it. */
  lemma WriteKeepsInverse(g: Graph, u: Node, v: Node, k: int, rel: string, x: Node, y: Node, j: int)
    requires Carries(EdgeData(g, x, y, j), rel)
    ensures Carries(EdgeData(AddEdge(g, u, v, k, RelationData(rel)), x, y, j), rel)
  {
    if (x, y, j) == (u, v, k) {
      assert EdgeData(AddEdge(g, u, v, k, RelationData(rel)), x, y, j).value[RELATION] == Str(rel);
    }
  }

  /** A slot carrying the inverse relation keeps it: the loop only ever
      writes the inverse relation. */
  lemma {:induction false} InverseStays(g: Graph, slots: seq<Edge>, r: string, codes: map<string, int>, x: Node, y: Node, j: int)
    requires WF(g) && AddInversesAsWritten(g, slots, r, codes).Success?
    requires r in InferredInverse && Carries(EdgeData(g, x, y, j), InferredInverse[r])
    ensures Carries(EdgeData(AddInversesAsWritten(g, slots, r, codes).value, x, y, j), InferredInverse[r])
    decreases |slots|
  {
    if |slots| > 0 {
      var e := slots[0];
      if !Carries(EdgeData(g, e.u, e.v, e.key), r) {
        InverseStays(g, slots[1..], r, codes, x, y, j);
      } else {
        WriteKeepsInverse(g, e.v, e.u, codes[r], InferredInverse[r], x, y, j);
        InverseStays(AddEdge(g, e.v, e.u, codes[r], RelationData(InferredInverse[r])), slots[1..], r, codes, x, y, j);
      }
    }
  }

  /** Only slots keyed by the code change. */
  lemma {:induction false} AsWrittenKeeps(g: Graph, slots: seq<Edge>, r: string, codes: map<string, int>)
    requires WF(g) && r in codes && AddInversesAsWritten(g, slots, r, codes).Success?
    ensures forall x, y, j :: j != codes[r] ==>
      EdgeData(AddInversesAsWritten(g, slots, r, codes).value, x, y, j) == EdgeData(g, x, y, j)
    decreases |slots|
  {
    if |slots| > 0 {
      var e := slots[0];
      if !Carries(EdgeData(g, e.u, e.v, e.key), r) {
        AsWrittenKeeps(g, slots[1..], r, codes);
      } else {
        AsWrittenKeeps(AddEdge(g, e.v, e.u, codes[r], RelationData(InferredInverse[r])), slots[1..], r, codes);
      }
    }
  }

  /** When the loop as written succeeds, every edge that carries `r` when
      it starts either gains its reverse edge with the inverse relation or
      has itself been rewritten, under the code, into the inverse edge of
      an earlier one. */
  lemma {:induction false} AsWrittenCovers(g: Graph, slots: seq<Edge>, r: string, codes: map<string, int>, f: Edge)
    requires WF(g) && r in codes && r in InferredInverse && AddInversesAsWritten(g, slots, r, codes).Success?
    requires f in slots && Carries(EdgeData(g, f.u, f.v, f.key), r)
    ensures Carries(EdgeData(AddInversesAsWritten(g, slots, r, codes).value, f.v, f.u, codes[r]), InferredInverse[r])
         || (f.key == codes[r] && Carries(EdgeData(AddInversesAsWritten(g, slots, r, codes).value, f.u, f.v, f.key), InferredInverse[r]))
    decreases |slots|
  {
    var e := slots[0];
    var inv := InferredInverse[r];
    if !Carries(EdgeData(g, e.u, e.v, e.key), r) {
      assert f != e && f in slots[1..];
      AsWrittenCovers(g, slots[1..], r, codes, f);
    } else {
      var g1 := AddEdge(g, e.v, e.u, codes[r], RelationData(inv));
      if f == e {
        InverseStays(g1, slots[1..], r, codes, f.v, f.u, codes[r]);
      } else {
        assert f in slots[1..];
        if Carries(EdgeData(g1, f.u, f.v, f.key), r) {
          AsWrittenCovers(g1, slots[1..], r, codes, f);
        } else {
          assert (f.u, f.v, f.key) == (e.v, e.u, codes[r]);
          InverseStays(g1, slots[1..], r, codes, f.u, f.v, f.key);
        }
      }
    }
  }

  /** A loop that meets no edge carrying `r` changes nothing. */
  lemma {:induction false} AsWrittenNoneCarry(g: Graph, slots: seq<Edge>, r: string, codes: map<string, int>)
    requires WF(g) && forall e :: e in slots ==> !Carries(EdgeData(g, e.u, e.v, e.key), r)
    ensures AddInversesAsWritten(g, slots, r, codes) == Success(g)
    decreases |slots|
  {
    if |slots| > 0 {
      assert slots[0] in slots;
      assert forall e :: e in slots[1..] ==> e in slots;
      AsWrittenNoneCarry(g, slots[1..], r, codes);
    }
  }

  /** With `r` missing from a table, the first edge carrying it raises
      `KeyError`. */
  lemma {:induction false} AsWrittenMissing(g: Graph, slots: seq<Edge>, r: string, codes: map<string, int>, f: Edge)
    requires WF(g) && (r !in codes || r !in InferredInverse)
    requires f in slots && Carries(EdgeData(g, f.u, f.v, f.key), r)
    ensures AddInversesAsWritten(g, slots, r, codes) == Failure(KeyError(r))
    decreases |slots|
  {
    if !Carries(EdgeData(g, slots[0].u, slots[0].v, slots[0].key), r) {
      assert f in slots[1..];
      AsWrittenMissing(g, slots[1..], r, codes, f);
    }
  }

  /** For the edges of a well-formed graph, the data the loop reads at its
      start is the edge's own. */
  lemma ReadsOwnData(g: Graph, r: string)
    requires WF(g)
    ensures forall e :: e in g.edges ==> EdgeData(g, e.u, e.v, e.key) == Some(e.data)
  {
    forall e | e in g.edges
      ensures EdgeData(g, e.u, e.v, e.key) == Some(e.data)
    {
      DataOfEdge(g, e);
    }
  }

  lemma SingleAsWrittenIsInverses(g: Graph, r: string, codes: map<string, int>)
    requires WF(g)
    ensures AddInferredEdgesAsWritten(g, Single(r), codes) == AddInversesAsWritten(g, g.edges, r, codes)
  {
    var first := AddInversesAsWritten(g, g.edges, r, codes);
    if first.Success? {
      assert [r][1..] == [];
      assert AddInferredForAsWritten(first.value, [], codes) == Success(first.value);
    }
  }

  /** `add_inferred_edges(graph, r)` as written, for a relation no edge
      carries, or one missing from a table. */
  lemma AddInferredAsWrittenErrors(g: Graph, r: string, codes: map<string, int>)
    requires WF(g)
    ensures (forall e :: e in g.edges ==> !Carries(Some(e.data), r)) ==>
              AddInferredEdgesAsWritten(g, Single(r), codes) == Success(g)
    ensures (exists e :: e in g.edges && Carries(Some(e.data), r)) && (r !in codes || r !in InferredInverse) ==>
              AddInferredEdgesAsWritten(g, Single(r), codes) == Failure(KeyError(r))
  {
    ReadsOwnData(g, r);
    SingleAsWrittenIsInverses(g, r, codes);
    if forall e :: e in g.edges ==> !Carries(Some(e.data), r) {
      AsWrittenNoneCarry(g, g.edges, r, codes);
    }
    if (exists e :: e in g.edges && Carries(Some(e.data), r)) && (r !in codes || r !in InferredInverse) {
      var f :| f in g.edges && Carries(Some(f.data), r);
      AsWrittenMissing(g, g.edges, r, codes, f);
    }
  }

  /** `add_inferred_edges(graph, r)` as written, with `r` in both tables:
      it raises `RuntimeError` exactly when some self-loop carrying `r`
      lacks an edge under the code from its node to itself; otherwise every
      edge carrying `r` gains its reverse with the inverse relation, or has
      itself become such a reverse edge, and only slots keyed by the code
      change. */
  lemma AddInferredAsWrittenSpec(g: Graph, r: string, codes: map<string, int>)
    requires WF(g) && r in codes && r in InferredInverse
    ensures AddInferredEdgesAsWritten(g, Single(r), codes).Success? <==>
              forall e :: e in g.edges && e.u == e.v && Carries(Some(e.data), r) ==> HasEdge(g, e.u, e.u, codes[r])
    ensures AddInferredEdgesAsWritten(g, Single(r), codes).Failure? ==>
              AddInferredEdgesAsWritten(g, Single(r), codes).error == RuntimeError(CHANGED_SIZE)
    ensures AddInferredEdgesAsWritten(g, Single(r), codes).Success? ==>
              forall e :: e in g.edges && Carries(Some(e.data), r) ==>
                || Carries(EdgeData(AddInferredEdgesAsWritten(g, Single(r), codes).value, e.v, e.u, codes[r]), InferredInverse[r])
                || (e.key == codes[r] && Carries(EdgeData(AddInferredEdgesAsWritten(g, Single(r), codes).value, e.u, e.v, e.key), InferredInverse[r]))
    ensures AddInferredEdgesAsWritten(g, Single(r), codes).Success? ==>
              forall x, y, j :: j != codes[r] ==>
                EdgeData(AddInferredEdgesAsWritten(g, Single(r), codes).value, x, y, j) == EdgeData(g, x, y, j)
  {
    ReadsOwnData(g, r);
    SingleAsWrittenIsInverses(g, r, codes);
    AsWrittenRaises(g, g.edges, r, codes);
    if AddInversesAsWritten(g, g.edges, r, codes).Success? {
      AsWrittenKeeps(g, g.edges, r, codes);
      forall e | e in g.edges && Carries(Some(e.data), r)
        ensures || Carries(EdgeData(AddInversesAsWritten(g, g.edges, r, codes).value, e.v, e.u, codes[r]), InferredInverse[r])
                || (e.key == codes[r] && Carries(EdgeData(AddInversesAsWritten(g, g.edges, r, codes).value, e.u, e.v, e.key), InferredInverse[r]))
      {
        AsWrittenCovers(g, g.edges, r, codes, e);
      }
    }
  }

  /** A qualified self-loop carrying `r`, on a node with no edge to itself
      under the code, makes `add_inferred_edges` raise as written, where
      the loop over a list taken up front succeeds. */
  lemma AddInferredSelfLoopRaises(g: Graph, e: Edge, r: string, codes: map<string, int>)
    requires WF(g) && r in codes && r in InferredInverse
    requires e in g.edges && e.u == e.v && Carries(Some(e.data), r) && !HasEdge(g, e.u, e.u, codes[r])
    ensures AddInferredEdgesAsWritten(g, Single(r), codes) == Failure(RuntimeError(CHANGED_SIZE))
    ensures AddInferredEdges(g, Single(r), codes).Success?
  {
    AddInferredAsWrittenSpec(g, r, codes);
    AddInferredSingle(g, r, codes);
  }
}
