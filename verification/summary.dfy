/** The histograms of `summary.py` and `error_analysis.py`: counters over a
    graph's nodes and edges and over the warnings PyBEL's parser left on
    it, and the dictionaries that group those warnings by namespace or by
    annotation value. A `Counter` is a multiset and a `defaultdict(list)`
    a map of lists read through `ListAt`.

    `graph.warnings` is passed as a sequence of `Warning` records: the
    line number, the line, the exception raised and the annotation context
    it was raised in. */
module Summary {
  import opened Wrappers
  import opened Seqs
  import opened BelGraph
  import opened Utils
  import Comparison

  // ---------------------------------------------------------------------
  // Parser warnings

  /** The exceptions of PyBEL's parser that the summaries tell apart; every
      other exception is `Other`, carrying its class name. */
  datatype Exception =
    | MissingNamespaceName(namespace: string, name: string)
    | MissingNamespaceRegex(namespace: string, name: string)
    | NakedName(name: string)
    | UndefinedNamespace(namespace: string, name: string)
    | UndefinedAnnotation(annotation: string)
    | Other(className: string)

  /** The class name of PyBEL's naked-name warning. */
  const NAKED_NAME_WARNING := "NakedNameWarning"

  /** `e.__class__.__name__` */
  function ClassName(e: Exception): string {
    match e
    case MissingNamespaceName(_, _) => "MissingNamespaceNameWarning"
    case MissingNamespaceRegex(_, _) => "MissingNamespaceRegexWarning"
    case NakedName(_) => NAKED_NAME_WARNING
    case UndefinedNamespace(_, _) => "UndefinedNamespaceWarning"
    case UndefinedAnnotation(_) => "UndefinedAnnotationWarning"
    case Other(c) => c
  }

  /** One entry `(line_number, line, e, context)` of `graph.warnings`;
      `text` is `str(e)`. */
  datatype Warning = Warning(lineNumber: int, line: string, error: Exception, text: string, context: Attrs)

  /** The namespace a warning names, or the empty string. */
  function Namespace(w: Warning): string {
    if w.error.MissingNamespaceName? || w.error.MissingNamespaceRegex? || w.error.UndefinedNamespace?
    then w.error.namespace
    else ""
  }

  /** The name a warning reports, or the empty string. */
  function Name(w: Warning): string {
    if w.error.MissingNamespaceName? || w.error.MissingNamespaceRegex? || w.error.UndefinedNamespace?
       || w.error.NakedName?
    then w.error.name
    else ""
  }

  // ---------------------------------------------------------------------
  // Node histograms

  /** The values the nodes `ns` hold under `key`, in order, skipping the
      nodes without one. */
  function NodeValues(g: Graph, ns: seq<Node>, key: string): seq<Value>
    requires forall n :: n in ns ==> n in g.attrs
  {
    if |ns| == 0 then []
    else
      var n := ns[|ns| - 1];
      NodeValues(g, ns[..|ns| - 1], key) + (if key in g.attrs[n] then [g.attrs[n][key]] else [])
  }

  /** The nodes of `g` holding something under `key`. */
  function NodesHaving(g: Graph, key: string): set<Node> {
    set n | n in g.attrs && key in g.attrs[n]
  }

  /** The nodes of `g` holding `v` under `key`. */
  function NodesWith(g: Graph, key: string, v: Value): set<Node> {
    set n | n in g.attrs && key in g.attrs[n] && g.attrs[n][key] == v
  }

  /** The nodes of `ns` holding something under `key`. */
  function Having(g: Graph, ns: seq<Node>, key: string): set<Node>
    requires forall n :: n in ns ==> n in g.attrs
  {
    set n | n in ns && key in g.attrs[n]
  }

  /** The nodes of `ns` holding `v` under `key`. */
  function Holding(g: Graph, ns: seq<Node>, key: string, v: Value): set<Node> {
    set n | n in ns && n in g.attrs && HoldsValue(g.attrs[n], key, v)
  }

  /** Over nodes listed once, there are as many values as nodes holding
      one. */
  lemma {:induction false} NodeValuesLength(g: Graph, ns: seq<Node>, key: string)
    requires Distinct(ns)
    requires forall n :: n in ns ==> n in g.attrs
    ensures |NodeValues(g, ns, key)| == |Having(g, ns, key)|
  {
    if |ns| > 0 {
      var front := ns[..|ns| - 1];
      var n := ns[|ns| - 1];
      assert Distinct(front);
      NodeValuesLength(g, front, key);
      assert n !in front;
      assert Having(g, ns, key) == Having(g, front, key) + (if key in g.attrs[n] then {n} else {});
    }
  }

  /** Over nodes listed once, each value occurs as often as there are nodes
      holding it. */
  lemma {:induction false} NodeValuesCount(g: Graph, ns: seq<Node>, key: string, v: Value)
    requires Distinct(ns)
    requires forall n :: n in ns ==> n in g.attrs
    ensures multiset(NodeValues(g, ns, key))[v] == |Holding(g, ns, key, v)|
  {
    if |ns| > 0 {
      var front := ns[..|ns| - 1];
      var n := ns[|ns| - 1];
      assert Distinct(front);
      NodeValuesCount(g, front, key, v);
      assert n !in front;
      ValuesStep(g, ns, key, v);
      HoldingStep(g, ns, key, v);
    }
  }

  /** The last node adds one value `v` exactly when it holds `v`. */
  lemma ValuesStep(g: Graph, ns: seq<Node>, key: string, v: Value)
    requires |ns| > 0
    requires forall n :: n in ns ==> n in g.attrs
    ensures multiset(NodeValues(g, ns, key))[v]
         == multiset(NodeValues(g, ns[..|ns| - 1], key))[v] + (if HoldsValue(g.attrs[ns[|ns| - 1]], key, v) then 1 else 0)
  {
  }

  /** The last node joins the nodes holding `v` exactly when it holds `v`;
      it is new to them when nodes are listed once. */
  lemma HoldingStep(g: Graph, ns: seq<Node>, key: string, v: Value)
    requires |ns| > 0 && ns[|ns| - 1] in g.attrs && ns[|ns| - 1] !in ns[..|ns| - 1]
    ensures |Holding(g, ns, key, v)| == |Holding(g, ns[..|ns| - 1], key, v)| + (if HoldsValue(g.attrs[ns[|ns| - 1]], key, v) then 1 else 0)
  {
    var front, n := ns[..|ns| - 1], ns[|ns| - 1];
    assert Holding(g, ns, key, v) == Holding(g, front, key, v) + (if HoldsValue(g.attrs[n], key, v) then {n} else {});
  }

  /** A dictionary holding `v` under `key`. */
  predicate HoldsValue(a: Attrs, key: string, v: Value) {
    key in a && a[key] == v
  }

  /** Over a whole graph: the histogram of the values under `key` counts
      every node holding one once. */
  lemma NodeHistogram(g: Graph, key: string)
    requires WF(g)
    ensures |NodeValues(g, g.nodes, key)| == |NodesHaving(g, key)|
    ensures forall v :: multiset(NodeValues(g, g.nodes, key))[v] == |NodesWith(g, key, v)|
  {
    forall v ensures multiset(NodeValues(g, g.nodes, key))[v] == |NodesWith(g, key, v)| {
      NodeValuesCount(g, g.nodes, key, v);
      assert Holding(g, g.nodes, key, v) == NodesWith(g, key, v);
    }
    NodeValuesLength(g, g.nodes, key);
    assert Having(g, g.nodes, key) == NodesHaving(g, key);
  }

  /** `count_functions(graph)`: every node counted once, under its function;
      a node without one raises `KeyError`. */
  function CountFunctions(g: Graph): (r: Result<multiset<Value>, Error>)
    requires WF(g)
    ensures r.Success? <==> forall n :: n in g.attrs ==> FUNCTION in g.attrs[n]
    ensures r.Failure? ==> r.error == KeyError(FUNCTION)
    ensures r.Success? ==> |r.value| == |g.attrs|
    ensures r.Success? ==> forall f :: r.value[f] == |NodesWith(g, FUNCTION, f)|
  {
    if forall n :: n in g.attrs ==> FUNCTION in g.attrs[n] then
      NodeHistogram(g, FUNCTION);
      assert NodesHaving(g, FUNCTION) == g.attrs.Keys;
      Success(multiset(NodeValues(g, g.nodes, FUNCTION)))
    else Failure(KeyError(FUNCTION))
  }

  /** `count_namespaces(graph)`: the nodes that have a namespace, counted
      by it; the others are passed over. */
  function CountNamespaces(g: Graph): (r: multiset<Value>)
    requires WF(g)
    ensures |r| == |NodesHaving(g, NAMESPACE)|
    ensures forall ns :: r[ns] == |NodesWith(g, NAMESPACE, ns)|
  {
    NodeHistogram(g, NAMESPACE);
    multiset(NodeValues(g, g.nodes, NAMESPACE))
  }

  /** The function histogram is the node count of `utils.count_nodes`. */
  lemma {:induction false} FunctionsAreNodeCounts(g: Graph, ns: seq<Node>)
    requires forall n :: n in ns ==> n in g.attrs
    requires forall n :: n in ns ==> FUNCTION in g.attrs[n]
    ensures Comparison.CountFunctions(g, ns) == Success(multiset(NodeValues(g, ns, FUNCTION)))
  {
    if |ns| > 0 {
      FunctionsAreNodeCounts(g, ns[..|ns| - 1]);
    }
  }

  /** `count_functions` and `utils.count_nodes` compute the same counter,
      and fail alike. */
  lemma CountFunctionsIsCountNodes(g: Graph)
    requires WF(g)
    ensures CountFunctions(g) == Comparison.CountNodes(g)
  {
    if forall n :: n in g.attrs ==> FUNCTION in g.attrs[n] {
      FunctionsAreNodeCounts(g, g.nodes);
    }
  }

  // ---------------------------------------------------------------------
  // Edge histograms

  /** The values the edges `es` hold under `key`, in order, skipping the
      edges without one. */
  function EdgeValues(es: seq<Edge>, key: string): seq<Value> {
    if |es| == 0 then []
    else
      var e := es[|es| - 1];
      EdgeValues(es[..|es| - 1], key) + (if key in e.data then [e.data[key]] else [])
  }

  /** The test that an edge's data has `key`. */
  function Has(key: string): Edge -> bool {
    (e: Edge) => key in e.data
  }

  /** The test that an edge's data holds `v` under `key`. */
  function Holds(key: string, v: Value): Edge -> bool {
    (e: Edge) => key in e.data && e.data[key] == v
  }

  /** Each value occurs as often as there are edges holding it. */
  lemma {:induction false} EdgeValuesCount(es: seq<Edge>, key: string, v: Value)
    ensures |EdgeValues(es, key)| == CountWhere(es, Has(key))
    ensures multiset(EdgeValues(es, key))[v] == CountWhere(es, Holds(key, v))
  {
    if |es| > 0 {
      EdgeValuesCount(es[..|es| - 1], key, v);
    }
  }

  /** `calculate_size_by_annotation(graph, annotation)`: the edges whose
      data has `annotation` as a key, counted by the value they hold there;
      the others are passed over. */
  function SizeByAnnotation(g: Graph, annotation: string): (r: multiset<Value>)
    ensures |r| == CountWhere(g.edges, Has(annotation))
    ensures forall v :: r[v] == CountWhere(g.edges, Holds(annotation, v))
  {
    forall v ensures multiset(EdgeValues(g.edges, annotation))[v] == CountWhere(g.edges, Holds(annotation, v)) {
      EdgeValuesCount(g.edges, annotation, v);
    }
    EdgeValuesCount(g.edges, annotation, Null);
    multiset(EdgeValues(g.edges, annotation))
  }

  /** `count_relations(graph)`: every edge counted once, under its
      relation, so the counts add up to the number of edges; an edge
      without a relation raises `KeyError`. */
  function CountRelations(g: Graph): (r: Result<multiset<Value>, Error>)
    ensures r.Success? <==> forall e :: e in g.edges ==> RELATION in e.data
    ensures r.Failure? ==> r.error == KeyError(RELATION)
    ensures r.Success? ==> |r.value| == |g.edges|
    ensures r.Success? ==> forall rel :: r.value[rel] == CountWhere(g.edges, Holds(RELATION, rel))
  {
    if forall e :: e in g.edges ==> RELATION in e.data then
      FilterKeepsAll(g.edges, Has(RELATION));
      Success(SizeByAnnotation(g, RELATION))
    else Failure(KeyError(RELATION))
  }

  /** `count_unique_relations(graph)`: a relation counted once for every
      ordered pair of nodes it joins, however many edges carry it there. */
  function CountUniqueRelations(g: Graph): (r: Result<multiset<Value>, Error>)
    ensures r.Success? <==> forall e :: e in g.edges ==> RELATION in e.data
    ensures r.Failure? ==> r.error == KeyError(RELATION)
    ensures r.Success? ==> forall rel :: r.value[rel] == |Comparison.PairsWith(g.edges, rel)|
  {
    Comparison.CountEdges(g)
  }

  /** The pairs a relation joins are no more than the edges carrying it,
      and there are some exactly when there are such edges. */
  lemma {:induction false} PairsAtMostEdges(es: seq<Edge>, rel: Value)
    requires forall e :: e in es ==> RELATION in e.data
    ensures |Comparison.PairsWith(es, rel)| <= CountWhere(es, Holds(RELATION, rel))
    ensures |Comparison.PairsWith(es, rel)| == 0 <==> CountWhere(es, Holds(RELATION, rel)) == 0
  {
    if |es| > 0 {
      var front := es[..|es| - 1];
      var e := es[|es| - 1];
      PairsWithStep(es, rel);
      PairsAtMostEdges(front, rel);
      var before := Comparison.PairsWith(front, rel);
      assert Holds(RELATION, rel)(e) <==> e.data[RELATION] == rel;
      if e.data[RELATION] == rel {
        assert |before + {(e.u, e.v)}| <= |before| + 1;
        assert (e.u, e.v) in before + {(e.u, e.v)};
      }
    }
  }

  /** The pairs joined by a relation, one edge at a time. */
  lemma PairsWithStep(es: seq<Edge>, rel: Value)
    requires |es| > 0 && forall e :: e in es ==> RELATION in e.data
    ensures var e := es[|es| - 1];
      Comparison.PairsWith(es, rel) ==
        Comparison.PairsWith(es[..|es| - 1], rel) + (if e.data[RELATION] == rel then {(e.u, e.v)} else {})
  {
    var front := es[..|es| - 1];
    assert forall f :: f in es <==> f in front || f == es[|es| - 1];
  }

  /** Counting per pair never gives more than counting per edge, and
      both histograms mention the same relations. */
  lemma UniqueRelationsAtMostRelations(g: Graph, rel: Value)
    requires forall e :: e in g.edges ==> RELATION in e.data
    ensures CountUniqueRelations(g).value[rel] <= CountRelations(g).value[rel]
    ensures CountUniqueRelations(g).value[rel] == 0 <==> CountRelations(g).value[rel] == 0
  {
    PairsAtMostEdges(g.edges, rel);
  }

  /** The annotation keys in an edge's data: those of its annotation
      dictionary. */
  function AnnotationKeys(d: Attrs): set<string>
    requires ANNOTATIONS in d
  {
    if d[ANNOTATIONS].Dict? then d[ANNOTATIONS].entries.Keys else {}
  }

  /** The test that an edge carries annotation `key`. */
  function Annotated(key: string): Edge -> bool {
    (e: Edge) => HasAnnotation(e.data, key)
  }

  /** The test that an edge carries annotation `key` with value `v`. */
  function AnnotatedWith(key: string, v: Value): Edge -> bool {
    (e: Edge) => Annotation(e.data, key) == Some(v)
  }

  /** `count_annotations(graph)` over the edges `es`: an annotation
      counted once for every edge that uses it; an edge without an
      annotation dictionary raises `KeyError`. */
  function CountAnnotations(es: seq<Edge>): (r: Result<multiset<string>, Error>)
    ensures r.Success? <==> forall e :: e in es ==> ANNOTATIONS in e.data
    ensures r.Failure? ==> r.error == KeyError(ANNOTATIONS)
    ensures r.Success? ==> forall k :: r.value[k] == CountWhere(es, Annotated(k))
  {
    if |es| == 0 then Success(multiset{})
    else
      var front := es[..|es| - 1];
      var e := es[|es| - 1];
      assert forall f :: f in es <==> f in front || f == e;
      var c :- CountAnnotations(front);
      if ANNOTATIONS !in e.data then Failure(KeyError(ANNOTATIONS))
      else Success(c + multiset(AnnotationKeys(e.data)))
  }

  /** `count_annotation_instances(graph, key)` over the edges `es`: the
      edges that carry annotation `key`, counted by its value; an edge
      without an annotation dictionary raises `KeyError`. */
  function CountAnnotationInstances(es: seq<Edge>, key: string): (r: Result<multiset<Value>, Error>)
    ensures r.Success? <==> forall e :: e in es ==> ANNOTATIONS in e.data
    ensures r.Failure? ==> r.error == KeyError(ANNOTATIONS)
    ensures r.Success? ==> forall v :: r.value[v] == CountWhere(es, AnnotatedWith(key, v))
  {
    if |es| == 0 then Success(multiset{})
    else
      var front := es[..|es| - 1];
      var e := es[|es| - 1];
      assert forall f :: f in es <==> f in front || f == e;
      var c :- CountAnnotationInstances(front, key);
      if ANNOTATIONS !in e.data then Failure(KeyError(ANNOTATIONS))
      else if HasAnnotation(e.data, key) then Success(c + multiset{e.data[ANNOTATIONS].entries[key]})
      else Success(c)
  }

  /** The instances of an annotation add up to its count in
      `count_annotations`. */
  lemma {:induction false} InstancesAddUp(es: seq<Edge>, key: string)
    requires forall e :: e in es ==> ANNOTATIONS in e.data
    ensures |CountAnnotationInstances(es, key).value| == CountAnnotations(es).value[key]
  {
    if |es| > 0 {
      var front := es[..|es| - 1];
      var e := es[|es| - 1];
      assert forall f :: f in front ==> f in es;
      InstancesAddUp(front, key);
      InstancesStep(es, key);
    }
  }

  /** One more edge adds one instance exactly when it carries the
      annotation, and one to that annotation's count likewise. */
  lemma InstancesStep(es: seq<Edge>, key: string)
    requires |es| > 0 && forall e :: e in es ==> ANNOTATIONS in e.data
    ensures var front := es[..|es| - 1]; var e := es[|es| - 1];
      && |CountAnnotationInstances(es, key).value| == |CountAnnotationInstances(front, key).value| + (if HasAnnotation(e.data, key) then 1 else 0)
      && CountAnnotations(es).value[key] == CountAnnotations(front).value[key] + (if HasAnnotation(e.data, key) then 1 else 0)
  {
    var front := es[..|es| - 1];
    assert forall f :: f in front ==> f in es;
    var e := es[|es| - 1];
    assert e in es;
    assert CountAnnotations(es).value == CountAnnotations(front).value + multiset(AnnotationKeys(e.data));
  }

  // ---------------------------------------------------------------------
  // Warning histograms

  /** The test that a warning's exception has class name `c`. */
  function ClassIs(c: string): Warning -> bool {
    (w: Warning) => ClassName(w.error) == c
  }

  /** `calculate_error_counter(graph)`: every warning counted once, under
      its exception's class name. */
  function ErrorCounter(ws: seq<Warning>): (r: multiset<string>)
    ensures |r| == |ws|
    ensures forall c :: r[c] == CountWhere(ws, ClassIs(c))
  {
    if |ws| == 0 then multiset{}
    else ErrorCounter(ws[..|ws| - 1]) + multiset{ClassName(ws[|ws| - 1].error)}
  }

  predicate IsNaked(w: Warning) {
    w.error.NakedName?
  }

  /** The test that a warning reports naked name `n`. */
  function NakedAs(n: string): Warning -> bool {
    (w: Warning) => w.error == NakedName(n)
  }

  /** `calculate_naked_names(graph)`: the names of the naked-name warnings,
      counted; other warnings are passed over. */
  function NakedNames(ws: seq<Warning>): (r: multiset<string>)
    ensures |r| == CountWhere(ws, IsNaked)
    ensures forall n :: r[n] == CountWhere(ws, NakedAs(n))
  {
    if |ws| == 0 then multiset{}
    else
      var w := ws[|ws| - 1];
      NakedNames(ws[..|ws| - 1]) + (if w.error.NakedName? then multiset{w.error.name} else multiset{})
  }

  /** There are no more naked names than warnings of that class. */
  lemma {:induction false} NakedNamesAtMostCounted(ws: seq<Warning>)
    ensures |NakedNames(ws)| <= ErrorCounter(ws)[NAKED_NAME_WARNING]
  {
    if |ws| > 0 {
      NakedNamesAtMostCounted(ws[..|ws| - 1]);
      NakedStep(ws);
      CounterStep(ws, NAKED_NAME_WARNING);
      var e := ws[|ws| - 1].error;
      if e.NakedName? {
        assert ClassName(e) == NAKED_NAME_WARNING;
      }
    }
  }

  /** The last warning adds a naked name exactly when it is naked. */
  lemma NakedStep(ws: seq<Warning>)
    requires |ws| > 0
    ensures |NakedNames(ws)| == |NakedNames(ws[..|ws| - 1])| + (if ws[|ws| - 1].error.NakedName? then 1 else 0)
  {
  }

  /** The last warning adds one to the count of its own class only. */
  lemma CounterStep(ws: seq<Warning>, c: string)
    requires |ws| > 0
    ensures ErrorCounter(ws)[c] == ErrorCounter(ws[..|ws| - 1])[c] + (if ClassName(ws[|ws| - 1].error) == c then 1 else 0)
  {
    var name := ClassName(ws[|ws| - 1].error);
    assert ErrorCounter(ws) == ErrorCounter(ws[..|ws| - 1]) + multiset{name};
  }

  /** The warnings `calculate_incorrect_name_dict` files: names missing
      from a namespace, and, when `regexToo`, names that fail a namespace's
      pattern. */
  function Misnamed(regexToo: bool): Warning -> bool {
    (w: Warning) => w.error.MissingNamespaceName? || (regexToo && w.error.MissingNamespaceRegex?)
  }

  /** `calculate_incorrect_name_dict(graph)`: for each namespace, the names
      the warnings report as wrong in it, in warning order and with
      repeats. `summary.py` and `error_analysis.py` file only missing names
      (`regexToo` false); `summary/error_summary.py` files pattern failures
      too. */
  function IncorrectNameDict(ws: seq<Warning>, regexToo: bool): (r: map<string, seq<string>>)
    ensures forall ns :: ns in r <==> exists w :: w in ws && Misnamed(regexToo)(w) && Namespace(w) == ns
    ensures forall ns :: ListAt(r, ns) == Apply(Filter(ws, Both(Misnamed(regexToo), KeyIs(Namespace, ns))), Name)
    ensures Total(r) == CountWhere(ws, Misnamed(regexToo))
  {
    var misnamed := Filter(ws, Misnamed(regexToo));
    forall ns
      ensures ListAt(Group(misnamed, Namespace, Name), ns)
              == Apply(Filter(ws, Both(Misnamed(regexToo), KeyIs(Namespace, ns))), Name)
    {
      GroupAt(misnamed, Namespace, Name, ns);
      FilterFilter(ws, Misnamed(regexToo), KeyIs(Namespace, ns));
    }
    GroupTotal(misnamed, Namespace, Name);
    Group(misnamed, Namespace, Name)
  }

  /** Without pattern failures among the warnings the two versions agree;
      with them, the later one only adds namespaces. */
  lemma IncorrectNameDictVersions(ws: seq<Warning>)
    ensures IncorrectNameDict(ws, false).Keys <= IncorrectNameDict(ws, true).Keys
    ensures (forall i :: 0 <= i < |ws| ==> !ws[i].error.MissingNamespaceRegex?) ==>
              IncorrectNameDict(ws, false) == IncorrectNameDict(ws, true)
  {
    if forall i :: 0 <= i < |ws| ==> !ws[i].error.MissingNamespaceRegex? {
      FilterAgree(ws, Misnamed(false), Misnamed(true));
    }
  }

  // ---------------------------------------------------------------------
  // Errors by annotation value

  /** What an annotation value files a warning under: a string itself; a
      list (Python's set, tuple or list) each of its elements; a
      dictionary, when `dictsToo`, each of its keys; anything else
      nothing. */
  function Targets(v: Value, dictsToo: bool): multiset<Value> {
    match v
    case Str(_) => multiset{v}
    case List(items) => multiset(items)
    case Dict(entries) => if dictsToo then multiset(set k | k in entries.Keys :: Str(k)) else multiset{}
    case _ => multiset{}
  }

  /** The annotation value a warning's non-empty context holds: under
      `annotation` at its top level (`summary.py`, `error_analysis.py`) or,
      when `nested`, in its annotation dictionary
      (`summary/error_summary.py`), where `edge_has_annotation` returns the
      value itself and a false one counts as absent. */
  function ContextValue(w: Warning, annotation: string, nested: bool): Option<Value> {
    if |w.context| == 0 then None
    else if nested then
      var a := Annotation(w.context, annotation);
      if a.Some? && Truthy(a.value) then a else None
    else if annotation in w.context then Some(w.context[annotation])
    else None
  }

  /** Which warnings the two lookups read a value for: the top-level one
      whenever the key is there, the nested one only when the annotation
      dictionary holds a true value under it, so an empty string is filed
      at the top level and skipped in the annotation dictionary. */
  lemma ContextValueCases(w: Warning, annotation: string)
    ensures ContextValue(w, annotation, false).Some? <==> |w.context| > 0 && annotation in w.context
    ensures ContextValue(w, annotation, true).Some? <==>
              |w.context| > 0 && HasAnnotation(w.context, annotation)
              && Truthy(w.context[ANNOTATIONS].entries[annotation])
    ensures ContextValue(w, annotation, true).Some? ==>
              ContextValue(w, annotation, true).value == w.context[ANNOTATIONS].entries[annotation]
    ensures |w.context| > 0 && annotation in w.context ==> ContextValue(w, annotation, false) == Some(w.context[annotation])
  {
  }

  /** An empty-string annotation is filed at the top level but not when read
      from the annotation dictionary. */
  lemma EmptyStringSkippedWhenNested(w: Warning, annotation: string)
    requires |w.context| > 0 && HasAnnotation(w.context, annotation)
    requires w.context[ANNOTATIONS].entries[annotation] == Str("")
    ensures ErrorByAnnotation([w], annotation, true) == map[]
  {
    assert Filed([w][0], annotation, true) == multiset{};
  }

  /** The values a warning is filed under. A nested lookup reads
      `collections.Iterable`, which takes in dictionaries as well. */
  function Filed(w: Warning, annotation: string, nested: bool): multiset<Value> {
    match ContextValue(w, annotation, nested)
    case None => multiset{}
    case Some(v) => Targets(v, nested)
  }

  /** `n` copies of `x`. */
  function Repeat<T>(x: T, n: nat): (r: seq<T>)
    ensures |r| == n
    ensures forall i :: 0 <= i < n ==> r[i] == x
  {
    seq(n, _ => x)
  }

  /** The class names filed under `v`, in warning order: each warning's
      once for every time its annotation value files it there. */
  function ErrorsUnder(ws: seq<Warning>, annotation: string, nested: bool, v: Value): seq<string> {
    if |ws| == 0 then []
    else
      var w := ws[|ws| - 1];
      ErrorsUnder(ws[..|ws| - 1], annotation, nested, v) + Repeat(ClassName(w.error), Filed(w, annotation, nested)[v])
  }

  /** The values some warning is filed under. */
  function FiledValues(ws: seq<Warning>, annotation: string, nested: bool): set<Value> {
    if |ws| == 0 then {}
    else FiledValues(ws[..|ws| - 1], annotation, nested) + Support(Filed(ws[|ws| - 1], annotation, nested))
  }

  /** A filed value was filed by some warning. */
  lemma {:induction false} FiledBySome(ws: seq<Warning>, annotation: string, nested: bool, v: Value) returns (i: nat)
    requires v in FiledValues(ws, annotation, nested)
    ensures i < |ws| && v in Filed(ws[i], annotation, nested)
  {
    var front := ws[..|ws| - 1];
    var last := Filed(ws[|ws| - 1], annotation, nested);
    if v in FiledValues(front, annotation, nested) {
      i := FiledBySome(front, annotation, nested, v);
      assert ws[i] == front[i];
    } else {
      assert v in Support(last);
      i := |ws| - 1;
    }
  }

  /** Every value a warning is filed under is filed. */
  lemma {:induction false} FiledByOne(ws: seq<Warning>, annotation: string, nested: bool, v: Value, i: nat)
    requires i < |ws| && v in Filed(ws[i], annotation, nested)
    ensures v in FiledValues(ws, annotation, nested)
  {
    var front := ws[..|ws| - 1];
    if i < |front| {
      assert front[i] == ws[i];
      FiledByOne(front, annotation, nested, v, i);
    } else {
      assert v in Support(Filed(ws[|ws| - 1], annotation, nested));
    }
  }

  /** A value is filed exactly when some warning is filed under it. */
  lemma FiledValuesSpec(ws: seq<Warning>, annotation: string, nested: bool, v: Value)
    ensures v in FiledValues(ws, annotation, nested) <==> exists i :: 0 <= i < |ws| && v in Filed(ws[i], annotation, nested)
  {
    if v in FiledValues(ws, annotation, nested) {
      var i := FiledBySome(ws, annotation, nested, v);
    }
    if exists i :: 0 <= i < |ws| && v in Filed(ws[i], annotation, nested) {
      var i :| 0 <= i < |ws| && v in Filed(ws[i], annotation, nested);
      FiledByOne(ws, annotation, nested, v, i);
    }
  }

  /** The list under a value is empty exactly when the value is not
      filed. */
  lemma {:induction false} ErrorsUnderEmpty(ws: seq<Warning>, annotation: string, nested: bool, v: Value)
    ensures ErrorsUnder(ws, annotation, nested, v) == [] <==> v !in FiledValues(ws, annotation, nested)
  {
    if |ws| > 0 {
      ErrorsUnderEmpty(ws[..|ws| - 1], annotation, nested, v);
    }
  }

  /** `calculate_error_by_annotation(graph, annotation)`: the
      `defaultdict(list)` its loop builds, described value by value. A value
      has a list exactly when some warning is filed under it, and then the
      list is not empty. */
  function ErrorByAnnotation(ws: seq<Warning>, annotation: string, nested: bool): (r: map<Value, seq<string>>)
    ensures forall v :: v in r <==> exists i :: 0 <= i < |ws| && v in Filed(ws[i], annotation, nested)
    ensures forall v :: v in r ==> r[v] != []
  {
    forall v
      ensures v in FiledValues(ws, annotation, nested) <==> exists i :: 0 <= i < |ws| && v in Filed(ws[i], annotation, nested)
      ensures v in FiledValues(ws, annotation, nested) ==> ErrorsUnder(ws, annotation, nested, v) != []
    {
      FiledValuesSpec(ws, annotation, nested, v);
      ErrorsUnderEmpty(ws, annotation, nested, v);
    }
    map v | v in FiledValues(ws, annotation, nested) :: ErrorsUnder(ws, annotation, nested, v)
  }

  /** Reading the dictionary like the `defaultdict` does gives the list
      built value by value. */
  lemma ErrorByAnnotationAt(ws: seq<Warning>, annotation: string, nested: bool, v: Value)
    ensures ListAt(ErrorByAnnotation(ws, annotation, nested), v) == ErrorsUnder(ws, annotation, nested, v)
  {
    ErrorsUnderEmpty(ws, annotation, nested, v);
  }

  /** The warnings are filed one after another: the list under every value
      for `a + b` is the one for `a` followed by the one for `b`. */
  lemma {:induction false} ErrorsUnderAppend(a: seq<Warning>, b: seq<Warning>, annotation: string, nested: bool, v: Value)
    ensures ErrorsUnder(a + b, annotation, nested, v)
            == ErrorsUnder(a, annotation, nested, v) + ErrorsUnder(b, annotation, nested, v)
    decreases |b|
  {
    if |b| == 0 {
      assert a + b == a;
    } else {
      var b' := b[..|b| - 1];
      assert (a + b)[..|a + b| - 1] == a + b';
      assert (a + b)[|a + b| - 1] == b[|b| - 1];
      ErrorsUnderAppend(a, b', annotation, nested, v);
    }
  }

  /** Appending warnings appends to the lists of the dictionary. */
  lemma ErrorByAnnotationAppend(a: seq<Warning>, b: seq<Warning>, annotation: string, nested: bool, v: Value)
    ensures ListAt(ErrorByAnnotation(a + b, annotation, nested), v)
            == ListAt(ErrorByAnnotation(a, annotation, nested), v) + ListAt(ErrorByAnnotation(b, annotation, nested), v)
  {
    ErrorsUnderAppend(a, b, annotation, nested, v);
    ErrorByAnnotationAt(a + b, annotation, nested, v);
    ErrorByAnnotationAt(a, annotation, nested, v);
    ErrorByAnnotationAt(b, annotation, nested, v);
  }

  /** One warning is filed under each value as often as its annotation
      value names it. */
  lemma ErrorByAnnotationOne(w: Warning, annotation: string, nested: bool, v: Value)
    ensures ListAt(ErrorByAnnotation([w], annotation, nested), v)
            == Repeat(ClassName(w.error), Filed(w, annotation, nested)[v])
  {
    ErrorByAnnotationAt([w], annotation, nested, v);
    assert [w][..0] == [];
  }

  /** A warning whose context holds a string is filed once, under that
      string. */
  lemma StringFiledOnce(w: Warning, annotation: string, nested: bool, s: string)
    requires ContextValue(w, annotation, nested) == Some(Str(s))
    ensures ErrorByAnnotation([w], annotation, nested) == map[Str(s) := [ClassName(w.error)]]
  {
    var r := ErrorByAnnotation([w], annotation, nested);
    assert Filed(w, annotation, nested) == multiset{Str(s)};
    assert forall k :: k in r <==> k == Str(s) by {
      assert forall k :: k in Filed([w][0], annotation, nested) <==> k == Str(s);
    }
    ErrorByAnnotationOne(w, annotation, nested, Str(s));
    assert r[Str(s)] == Repeat(ClassName(w.error), 1) == [ClassName(w.error)];
  }

  /** A warning whose context holds a list is filed under each element, as
      often as the element occurs. */
  lemma ListFiledPerElement(w: Warning, annotation: string, nested: bool, items: seq<Value>, v: Value)
    requires ContextValue(w, annotation, nested) == Some(List(items))
    ensures v in ErrorByAnnotation([w], annotation, nested) <==> v in items
    ensures ListAt(ErrorByAnnotation([w], annotation, nested), v) == Repeat(ClassName(w.error), Occurrences(items, v))
  {
    assert Filed([w][0], annotation, nested) == multiset(items);
    ErrorByAnnotationOne(w, annotation, nested, v);
    CounterCountsOccurrences(items, v);
  }

  /** Read from the annotation dictionary, a warning whose context holds a
      dictionary is filed once under each of its keys; read from the top
      level, it is not filed. */
  lemma DictFiledPerKey(w: Warning, annotation: string, nested: bool, entries: map<string, Value>, k: string)
    requires ContextValue(w, annotation, nested) == Some(Dict(entries))
    ensures ListAt(ErrorByAnnotation([w], annotation, nested), Str(k))
            == if nested && k in entries then [ClassName(w.error)] else []
    ensures !nested ==> ErrorByAnnotation([w], annotation, nested) == map[]
  {
    var keys := set x | x in entries.Keys :: Str(x);
    assert k in entries ==> Str(k) in keys;
    assert Str(k) in keys ==> k in entries;
    ErrorByAnnotationOne(w, annotation, nested, Str(k));
    assert Repeat(ClassName(w.error), 1) == [ClassName(w.error)];
    if !nested {
      assert Filed([w][0], annotation, nested) == multiset{};
    }
  }

  /** A warning without an annotation value, or whose value is a number, a
      boolean or `None`, is not filed. */
  lemma OtherValuesIgnored(w: Warning, annotation: string, nested: bool)
    requires match ContextValue(w, annotation, nested)
             case None => true
             case Some(v) => v.Int? || v.Bool? || v.Null?
    ensures ErrorByAnnotation([w], annotation, nested) == map[]
  {
    assert Filed([w][0], annotation, nested) == multiset{};
  }
}
