/** Overlaying tabular data on the nodes of a graph (`overlay_data`,
    `overlay_type_data`, and the variant of `overlay_type_data` that keys
    the table by node tuples). Tables are dictionaries, given as their
    lists of items. */
module Integration {
  import opened Wrappers
  import opened Seqs
  import opened BelGraph

  /** A node's dictionary after the overlay: the table's value goes under
      `tag` unless the node already has a tag and `overwrite` is off. */
  function Overlaid(a: Attrs, v: Option<Value>, tag: string, overwrite: bool): Attrs {
    if v.Some? && (overwrite || tag !in a) then a[tag := v.value] else a
  }

  /** `overlay_data(graph, data, label, overwrite)`, one item at a time;
      items for nodes outside the graph are skipped. */
  function OverlayData(g: Graph, items: seq<(Node, Value)>, tag: string, overwrite: bool): (r: Graph)
    ensures r.nodes == g.nodes && r.edges == g.edges
    ensures r.attrs.Keys == g.attrs.Keys
    ensures WF(g) ==> WF(r)
  {
    if |items| == 0 then g
    else
      var (n, v) := items[|items| - 1];
      var m := OverlayData(g, items[..|items| - 1], tag, overwrite);
      if n !in m.attrs then m
      else if tag in m.attrs[n] && !overwrite then m
      else m.(attrs := m.attrs[n := m.attrs[n][tag := v]])
  }

  /** Each node is overlaid once, with the table's value for it, judged
      against its dictionary before the overlay. */
  lemma {:induction false} OverlayDataAt(g: Graph, items: seq<(Node, Value)>, tag: string, overwrite: bool, n: Node)
    requires DistinctKeys(items)
    requires n in g.attrs
    ensures OverlayData(g, items, tag, overwrite).attrs[n] == Overlaid(g.attrs[n], Lookup(items, n), tag, overwrite)
  {
    if |items| > 0 {
      var front := items[..|items| - 1];
      var (k, v) := items[|items| - 1];
      assert items == front + [(k, v)];
      LookupAppend(front, k, v, n);
      OverlayDataAt(g, front, tag, overwrite, n);
      if k == n {
        assert Lookup(front, n).None?;
      }
    }
  }

  /** What `overlay_data` promises: no node is added; only the label `tag`
      changes, and only on nodes the table names; an existing tag
      survives unless `overwrite` is set; otherwise the node gets the
      table's value. */
  lemma OverlayDataSpec(g: Graph, items: seq<(Node, Value)>, tag: string, overwrite: bool, n: Node)
    requires DistinctKeys(items)
    requires n in g.attrs
    ensures var a := OverlayData(g, items, tag, overwrite).attrs[n];
      && (forall k :: k != tag ==> (k in a <==> k in g.attrs[n]))
      && (forall k :: k != tag && k in a ==> a[k] == g.attrs[n][k])
      && (Lookup(items, n).None? ==> a == g.attrs[n])
      && (tag in g.attrs[n] && !overwrite ==> a == g.attrs[n])
      && (Lookup(items, n).Some? && (overwrite || tag !in g.attrs[n]) ==>
            tag in a && a[tag] == Lookup(items, n).value)
  {
    OverlayDataAt(g, items, tag, overwrite, n);
  }

  /** The nodes `overlay_type_data` selects: with a namespace, and with the
      given function and namespace. */
  predicate TypeMatch(d: Attrs, fn: string, namespace: string) {
    NAMESPACE in d && FUNCTION in d && d[FUNCTION] == Str(fn) && d[NAMESPACE] == Str(namespace)
  }

  /** Reading the node would raise `KeyError`: a namespaced node without a
      function, or a selected node without a name. */
  predicate Unreadable(d: Attrs, fn: string, namespace: string) {
    (NAMESPACE in d && FUNCTION !in d) || (TypeMatch(d, fn, namespace) && NAME !in d)
  }

  /** `data.get(name, impute)` */
  function GetOr(data: map<Value, Value>, key: Value, impute: Value): Value {
    if key in data then data[key] else impute
  }

  /** The value `overlay_type_data` stores for a node with dictionary
      `d`: `data.get(name, impute)` for a selected node, none otherwise. */
  function Wanted(d: Attrs, data: map<Value, Value>, fn: string, namespace: string, impute: Value): Option<Value> {
    if TypeMatch(d, fn, namespace) && NAME in d then Some(GetOr(data, d[NAME], impute)) else None
  }

  /** The loop of `overlay_type_data` building `new_data` over the nodes
      `ns`, in order. */
  function TypeItems(g: Graph, ns: seq<Node>, data: map<Value, Value>, fn: string, namespace: string, impute: Value)
    : (r: Result<seq<(Node, Value)>, Error>)
    requires forall n :: n in ns ==> n in g.attrs
    ensures r.Success? <==> forall n :: n in ns ==> !Unreadable(g.attrs[n], fn, namespace)
    ensures r.Failure? ==> r.error.KeyError?
    ensures r.Success? ==> forall i :: 0 <= i < |r.value| ==> r.value[i].0 in ns
    ensures r.Success? && Distinct(ns) ==> DistinctKeys(r.value)
    ensures r.Success? ==> forall n :: n in ns ==>
      Lookup(r.value, n) == Wanted(g.attrs[n], data, fn, namespace, impute)
  {
    if |ns| == 0 then Success([])
    else
      var front := ns[..|ns| - 1];
      var n := ns[|ns| - 1];
      assert forall m :: m in ns <==> m in front || m == n;
      assert Distinct(ns) ==> Distinct(front) && n !in front;
      var items :- TypeItems(g, front, data, fn, namespace, impute);
      var v :- TypeItem(g.attrs[n], data, fn, namespace, impute);
      var r := if v.Some? then items + [(n, v.value)] else items;
      TypeItemsStep(g, front, n, items, v, data, fn, namespace, impute);
      Success(r)
  }

  /** One turn of that loop: the value node `n` contributes, if any, or
      the `KeyError` reading it raises. */
  function TypeItem(d: Attrs, data: map<Value, Value>, fn: string, namespace: string, impute: Value)
    : (r: Result<Option<Value>, Error>)
    ensures r.Success? <==> !Unreadable(d, fn, namespace)
    ensures r.Failure? ==> r.error.KeyError?
    ensures r.Success? ==> r.value == Wanted(d, data, fn, namespace, impute)
  {
    if NAMESPACE !in d then Success(None)
    else if FUNCTION !in d then Failure(KeyError(FUNCTION))
    else if d[FUNCTION] == Str(fn) && d[NAMESPACE] == Str(namespace) then
      if NAME !in d then Failure(KeyError(NAME))
      else Success(Some(GetOr(data, d[NAME], impute)))
    else Success(None)
  }

  /** The loop's invariant survives one more node `n` after the nodes
      `front`. */
  lemma TypeItemsStep(g: Graph, front: seq<Node>, n: Node, items: seq<(Node, Value)>, v: Option<Value>,
                      data: map<Value, Value>, fn: string, namespace: string, impute: Value)
    requires n in g.attrs && forall m :: m in front ==> m in g.attrs
    requires forall i :: 0 <= i < |items| ==> items[i].0 in front
    requires Distinct(front) ==> DistinctKeys(items)
    requires forall m :: m in front ==>
      Lookup(items, m) == Wanted(g.attrs[m], data, fn, namespace, impute)
    requires v == Wanted(g.attrs[n], data, fn, namespace, impute)
    ensures var r := if v.Some? then items + [(n, v.value)] else items;
      && (forall i :: 0 <= i < |r| ==> r[i].0 in front || r[i].0 == n)
      && (Distinct(front) && n !in front ==> DistinctKeys(r))
      && (forall m :: m in front || m == n ==>
            Lookup(r, m) == Wanted(g.attrs[m], data, fn, namespace, impute))
  {
    if v.Some? {
      forall m | m in front || m == n
        ensures Lookup(items + [(n, v.value)], m) == if m == n then v else Lookup(items, m)
      {
        LookupAppend(items, n, v.value, m);
      }
    } else {
      assert Lookup(items, n).None?;
    }
  }

  /** `overlay_type_data(graph, data, label, function, namespace,
      overwrite, impute)`, with `impute` given explicitly (`Null` for
      Python's default `None`). */
  function OverlayTypeData(g: Graph, data: map<Value, Value>, tag: string, fn: string, namespace: string,
                           overwrite: bool, impute: Value): (r: Result<Graph, Error>)
    requires WF(g)
    ensures r.Success? ==> WF(r.value) && r.value.attrs.Keys == g.attrs.Keys
  {
    var items :- TypeItems(g, g.nodes, data, fn, namespace, impute);
    Success(OverlayData(g, items, tag, overwrite))
  }

  /** It fails exactly when some node cannot be read; otherwise every
      selected node gets `data.get(name, impute)` under the label `tag` (unless it
      already has one and `overwrite` is off), and every other node is left
      alone. */
  lemma OverlayTypeDataSpec(g: Graph, data: map<Value, Value>, tag: string, fn: string, namespace: string,
                            overwrite: bool, impute: Value, n: Node)
    requires WF(g)
    requires n in g.attrs
    ensures var r := OverlayTypeData(g, data, tag, fn, namespace, overwrite, impute);
      && (r.Failure? <==> exists m :: m in g.attrs && Unreadable(g.attrs[m], fn, namespace))
      && (r.Success? ==> r.value.attrs.Keys == g.attrs.Keys && r.value.edges == g.edges)
      && (r.Success? && !TypeMatch(g.attrs[n], fn, namespace) ==> r.value.attrs[n] == g.attrs[n])
      && (r.Success? && TypeMatch(g.attrs[n], fn, namespace) && (overwrite || tag !in g.attrs[n]) ==>
            tag in r.value.attrs[n] && r.value.attrs[n][tag] == GetOr(data, g.attrs[n][NAME], impute))
  {
    var items := TypeItems(g, g.nodes, data, fn, namespace, impute);
    if items.Success? {
      OverlayDataSpec(g, items.value, tag, overwrite, n);
    }
  }

  /** The table of the `operations` variant of `overlay_type_data`: each
      name becomes the node tuple `(function, namespace, name)`. */
  function TupleItems(data: seq<(string, Value)>, fn: string, namespace: string): (r: seq<(Node, Value)>)
    ensures |r| == |data|
    ensures forall i :: 0 <= i < |data| ==> r[i] == ([fn, namespace, data[i].0], data[i].1)
  {
    seq(|data|, i requires 0 <= i < |data| => ([fn, namespace, data[i].0], data[i].1))
  }

  /** The node tuple `(function, namespace, name)` for some name. */
  predicate NamedBy(n: Node, fn: string, namespace: string) {
    |n| == 3 && n[0] == fn && n[1] == namespace
  }

  /** Re-keying loses nothing: the tuple table answers for a node exactly
      what the name table answers for its name, and no other node is in
      it; distinct names give distinct tuples. */
  lemma {:induction false} TupleLookup(data: seq<(string, Value)>, fn: string, namespace: string, n: Node)
    ensures Lookup(TupleItems(data, fn, namespace), n) == if NamedBy(n, fn, namespace) then Lookup(data, n[2]) else None
    ensures DistinctKeys(data) ==> DistinctKeys(TupleItems(data, fn, namespace))
  {
    var items := TupleItems(data, fn, namespace);
    if |data| > 0 {
      var front := data[..|data| - 1];
      var (name, v) := data[|data| - 1];
      assert items[..|items| - 1] == TupleItems(front, fn, namespace);
      TupleLookup(front, fn, namespace, n);
      var key: Node := [fn, namespace, name];
      assert n == key <==> NamedBy(n, fn, namespace) && n[2] == name by {
        if NamedBy(n, fn, namespace) && n[2] == name {
          assert n == key;
        }
      }
    }
    if DistinctKeys(data) {
      forall i, j | 0 <= i < j < |items|
        ensures items[i].0 != items[j].0
      {
        assert items[i].0[2] == data[i].0;
      }
    }
  }

  /** `overlay_type_data` of `operations`: no imputation, and no reading
      of node dictionaries; it overlays on the node tuples themselves. */
  function OverlayTupleData(g: Graph, data: seq<(string, Value)>, tag: string, fn: string, namespace: string,
                            overwrite: bool): (r: Graph)
    ensures r.attrs.Keys == g.attrs.Keys && r.edges == g.edges
    ensures WF(g) ==> WF(r)
  {
    OverlayData(g, TupleItems(data, fn, namespace), tag, overwrite)
  }

  /** A node `(function, namespace, name)` gets the table's value for
      `name`; a node the table does not name is unaffected. */
  lemma OverlayTupleDataSpec(g: Graph, data: seq<(string, Value)>, tag: string, fn: string, namespace: string,
                             overwrite: bool, n: Node)
    requires DistinctKeys(data)
    requires n in g.attrs
    ensures var a := OverlayTupleData(g, data, tag, fn, namespace, overwrite).attrs[n];
      && (!NamedBy(n, fn, namespace) || Lookup(data, n[2]).None? ==> a == g.attrs[n])
      && (NamedBy(n, fn, namespace) && Lookup(data, n[2]).Some? && (overwrite || tag !in g.attrs[n]) ==>
            tag in a && a[tag] == Lookup(data, n[2]).value)
  {
    TupleLookup(data, fn, namespace, n);
    OverlayDataAt(g, TupleItems(data, fn, namespace), tag, overwrite, n);
  }

  /** A graph built with `add_simple_node` only, as in the overlay test. */
  predicate SimpleNodes(g: Graph) {
    forall n :: n in g.attrs ==> |n| == 3 && g.attrs[n] == Simple(n)
  }

  /** Simple nodes carry all three keys, so none is unreadable. */
  lemma SimpleReadable(g: Graph, fn: string, namespace: string)
    requires SimpleNodes(g)
    ensures forall m :: m in g.attrs ==> !Unreadable(g.attrs[m], fn, namespace)
  {
    forall m | m in g.attrs
      ensures !Unreadable(g.attrs[m], fn, namespace)
    {
      assert g.attrs[m] == Simple(m);
    }
  }

  /** On simple nodes without the label, the overlay succeeds, labels a
      node of the type with the table's value for its name, and leaves
      any other node without the label. */
  lemma OverlaySimple(g: Graph, data: map<Value, Value>, tag: string, fn: string, namespace: string,
                      impute: Value, n: Node)
    requires WF(g) && SimpleNodes(g) && n in g.attrs
    requires tag != FUNCTION && tag != NAMESPACE && tag != NAME
    ensures var r := OverlayTypeData(g, data, tag, fn, namespace, false, impute);
      && r.Success?
      && (n[0] == fn && n[1] == namespace ==> tag in r.value.attrs[n] && r.value.attrs[n][tag] == GetOr(data, Str(n[2]), impute))
      && (n[0] != fn ==> tag !in r.value.attrs[n])
  {
    SimpleReadable(g, fn, namespace);
    var a := g.attrs[n];
    assert a == Simple(n);
    assert tag !in a;
    OverlayTypeDataSpec(g, data, tag, fn, namespace, false, impute, n);
  }

  /** The table of the overlay test. */
  function OverlayTable(): map<Value, Value> {
    map[Str("a") := Int(1), Str("b") := Int(2), Str("c") := Int(-1)]
  }

  /** The overlay test on any graph of simple nodes holding its HGNC genes:
      genes `a`, `b`, `c` get their values and gene `d` the imputed 0. */
  lemma TestOverlayTypeData(g: Graph, n: Node, name: string, expected: Value)
    requires WF(g) && SimpleNodes(g)
    requires (name, expected) in [("a", Int(1)), ("b", Int(2)), ("c", Int(-1)), ("d", Int(0))]
    requires n == [GENE, "HGNC", name] && n in g.attrs
    ensures var r := OverlayTypeData(g, OverlayTable(), "dgxp", GENE, "HGNC", false, Int(0));
      r.Success? && "dgxp" in r.value.attrs[n] && r.value.attrs[n]["dgxp"] == expected
  {
    assert GetOr(OverlayTable(), Str(name), Int(0)) == expected by {
      if name == "d" {
        assert Str(name) !in OverlayTable();
      }
    }
    OverlaySimple(g, OverlayTable(), "dgxp", GENE, "HGNC", Int(0), n);
  }

  /** ... and the RNA and the protein get no label. */
  lemma TestOverlayTypeDataSkips(g: Graph, n: Node)
    requires WF(g) && SimpleNodes(g)
    requires n == [RNA, "HGNC", "e"] || n == [PROTEIN, "HGNC", "f"]
    requires n in g.attrs
    ensures var r := OverlayTypeData(g, OverlayTable(), "dgxp", GENE, "HGNC", false, Int(0));
      r.Success? && "dgxp" !in r.value.attrs[n]
  {
    OverlaySimple(g, OverlayTable(), "dgxp", GENE, "HGNC", Int(0), n);
  }
}
