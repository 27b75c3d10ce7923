/** The warning summaries of `summary/error_summary.py`: the sets of
    namespaces, names and annotations the parser's warnings report, the
    incorrect names grouped by namespace, and the warnings grouped by their
    message. The errors by annotation value are `Summary.ErrorByAnnotation`
    read from the annotation dictionary (`nested`). */
module ErrorSummary {
  import opened Seqs
  import opened Utils
  import opened Summary

  /** The warnings about names that are missing from their namespace or
      fail its pattern. */
  function Incorrect(): Warning -> bool {
    Misnamed(true)
  }

  /** `get_namespaces_with_incorrect_names(graph)` */
  function NamespacesWithIncorrectNames(ws: seq<Warning>): (r: set<string>)
    ensures forall ns :: ns in r <==>
      exists i :: 0 <= i < |ws| && (ws[i].error.MissingNamespaceName? || ws[i].error.MissingNamespaceRegex?)
                  && ws[i].error.namespace == ns
  {
    var r := set w | w in ws && (w.error.MissingNamespaceName? || w.error.MissingNamespaceRegex?) :: w.error.namespace;
    assert forall ns :: ns in r ==>
      exists i :: 0 <= i < |ws| && (ws[i].error.MissingNamespaceName? || ws[i].error.MissingNamespaceRegex?)
                  && ws[i].error.namespace == ns by {
      forall ns | ns in r
        ensures exists i :: 0 <= i < |ws| && (ws[i].error.MissingNamespaceName? || ws[i].error.MissingNamespaceRegex?)
                            && ws[i].error.namespace == ns
      {
        var w :| w in ws && (w.error.MissingNamespaceName? || w.error.MissingNamespaceRegex?) && w.error.namespace == ns;
        var i :| 0 <= i < |ws| && ws[i] == w;
      }
    }
    assert forall ns :: (exists i :: 0 <= i < |ws| && (ws[i].error.MissingNamespaceName? || ws[i].error.MissingNamespaceRegex?)
                                    && ws[i].error.namespace == ns) ==> ns in r by {
      forall ns | exists i :: 0 <= i < |ws| && (ws[i].error.MissingNamespaceName? || ws[i].error.MissingNamespaceRegex?)
                              && ws[i].error.namespace == ns
        ensures ns in r
      {
        var i :| 0 <= i < |ws| && (ws[i].error.MissingNamespaceName? || ws[i].error.MissingNamespaceRegex?)
                 && ws[i].error.namespace == ns;
        assert ws[i] in ws;
      }
    }
    r
  }

  /** `get_incorrect_names_by_namespace(graph, namespace)` */
  function IncorrectNamesByNamespace(ws: seq<Warning>, namespace: string): (r: set<string>)
    ensures forall x :: x in r <==>
      exists i :: 0 <= i < |ws| && (ws[i].error == MissingNamespaceName(namespace, x) || ws[i].error == MissingNamespaceRegex(namespace, x))
  {
    var r := set w | w in ws && (w.error.MissingNamespaceName? || w.error.MissingNamespaceRegex?) && w.error.namespace == namespace
                 :: w.error.name;
    assert forall x :: x in r ==>
      exists i :: 0 <= i < |ws| && (ws[i].error == MissingNamespaceName(namespace, x) || ws[i].error == MissingNamespaceRegex(namespace, x)) by {
      forall x | x in r
        ensures exists i :: 0 <= i < |ws| && (ws[i].error == MissingNamespaceName(namespace, x) || ws[i].error == MissingNamespaceRegex(namespace, x))
      {
        var w :| w in ws && (w.error.MissingNamespaceName? || w.error.MissingNamespaceRegex?) && w.error.namespace == namespace
                 && w.error.name == x;
        var i :| 0 <= i < |ws| && ws[i] == w;
      }
    }
    assert forall x :: (exists i :: 0 <= i < |ws| && (ws[i].error == MissingNamespaceName(namespace, x) || ws[i].error == MissingNamespaceRegex(namespace, x)))
                       ==> x in r by {
      forall x | exists i :: 0 <= i < |ws| && (ws[i].error == MissingNamespaceName(namespace, x) || ws[i].error == MissingNamespaceRegex(namespace, x))
        ensures x in r
      {
        var i :| 0 <= i < |ws| && (ws[i].error == MissingNamespaceName(namespace, x) || ws[i].error == MissingNamespaceRegex(namespace, x));
        assert ws[i] in ws;
      }
    }
    r
  }

  /** `get_undefined_namespaces(graph)` */
  function UndefinedNamespaces(ws: seq<Warning>): (r: set<string>)
    ensures forall ns :: ns in r <==>
      exists i :: 0 <= i < |ws| && ws[i].error.UndefinedNamespace? && ws[i].error.namespace == ns
  {
    var r := set w | w in ws && w.error.UndefinedNamespace? :: w.error.namespace;
    assert forall ns :: ns in r ==> exists i :: 0 <= i < |ws| && ws[i].error.UndefinedNamespace? && ws[i].error.namespace == ns by {
      forall ns | ns in r ensures exists i :: 0 <= i < |ws| && ws[i].error.UndefinedNamespace? && ws[i].error.namespace == ns {
        var w :| w in ws && w.error.UndefinedNamespace? && w.error.namespace == ns;
        var i :| 0 <= i < |ws| && ws[i] == w;
      }
    }
    r
  }

  /** `get_undefined_namespace_names(graph, namespace)` */
  function UndefinedNamespaceNames(ws: seq<Warning>, namespace: string): (r: set<string>)
    ensures forall x :: x in r <==>
      exists i :: 0 <= i < |ws| && ws[i].error == UndefinedNamespace(namespace, x)
  {
    var r := set w | w in ws && w.error.UndefinedNamespace? && w.error.namespace == namespace :: w.error.name;
    assert forall x :: x in r ==> exists i :: 0 <= i < |ws| && ws[i].error == UndefinedNamespace(namespace, x) by {
      forall x | x in r ensures exists i :: 0 <= i < |ws| && ws[i].error == UndefinedNamespace(namespace, x) {
        var w :| w in ws && w.error.UndefinedNamespace? && w.error.namespace == namespace && w.error.name == x;
        var i :| 0 <= i < |ws| && ws[i] == w;
      }
    }
    assert forall x :: (exists i :: 0 <= i < |ws| && ws[i].error == UndefinedNamespace(namespace, x)) ==> x in r by {
      forall x | exists i :: 0 <= i < |ws| && ws[i].error == UndefinedNamespace(namespace, x) ensures x in r {
        var i :| 0 <= i < |ws| && ws[i].error == UndefinedNamespace(namespace, x);
        assert ws[i] in ws;
      }
    }
    r
  }

  /** `get_undefined_annotations(graph)` */
  function UndefinedAnnotations(ws: seq<Warning>): (r: set<string>)
    ensures forall a :: a in r <==> exists i :: 0 <= i < |ws| && ws[i].error == UndefinedAnnotation(a)
  {
    var r := set w | w in ws && w.error.UndefinedAnnotation? :: w.error.annotation;
    assert forall a :: a in r ==> exists i :: 0 <= i < |ws| && ws[i].error == UndefinedAnnotation(a) by {
      forall a | a in r ensures exists i :: 0 <= i < |ws| && ws[i].error == UndefinedAnnotation(a) {
        var w :| w in ws && w.error.UndefinedAnnotation? && w.error.annotation == a;
        var i :| 0 <= i < |ws| && ws[i] == w;
      }
    }
    assert forall a :: (exists i :: 0 <= i < |ws| && ws[i].error == UndefinedAnnotation(a)) ==> a in r by {
      forall a | exists i :: 0 <= i < |ws| && ws[i].error == UndefinedAnnotation(a) ensures a in r {
        var i :| 0 <= i < |ws| && ws[i].error == UndefinedAnnotation(a);
        assert ws[i] in ws;
      }
    }
    r
  }

  /** A namespace has undefined names exactly when it is undefined. */
  lemma UndefinedNamesOfUndefined(ws: seq<Warning>, namespace: string)
    ensures UndefinedNamespaceNames(ws, namespace) != {} <==> namespace in UndefinedNamespaces(ws)
  {
    if namespace in UndefinedNamespaces(ws) {
      var i :| 0 <= i < |ws| && ws[i].error.UndefinedNamespace? && ws[i].error.namespace == namespace;
      assert ws[i].error == UndefinedNamespace(namespace, ws[i].error.name);
      assert ws[i].error.name in UndefinedNamespaceNames(ws, namespace);
    }
  }

  /** `calculate_incorrect_name_dict(graph)` of this module, which files
      both missing names and pattern failures: its keys are the namespaces
      with incorrect names, each list holds exactly that namespace's
      incorrect names, and the lists hold one entry per such warning. */
  function IncorrectNameDict(ws: seq<Warning>): (r: map<string, seq<string>>)
    ensures r.Keys == NamespacesWithIncorrectNames(ws)
    ensures forall ns :: (set x | x in ListAt(r, ns)) == IncorrectNamesByNamespace(ws, ns)
    ensures Total(r) == CountWhere(ws, Incorrect())
  {
    var r := Summary.IncorrectNameDict(ws, true);
    assert r.Keys == NamespacesWithIncorrectNames(ws) by {
      forall ns | ns in r ensures ns in NamespacesWithIncorrectNames(ws) {
        var w :| w in ws && Misnamed(true)(w) && Namespace(w) == ns;
        var i :| 0 <= i < |ws| && ws[i] == w;
      }
      forall ns | ns in NamespacesWithIncorrectNames(ws) ensures ns in r {
        var i :| 0 <= i < |ws| && (ws[i].error.MissingNamespaceName? || ws[i].error.MissingNamespaceRegex?)
                 && ws[i].error.namespace == ns;
        assert Misnamed(true)(ws[i]) && Namespace(ws[i]) == ns;
        assert ws[i] in ws;
      }
    }
    forall ns ensures (set x | x in ListAt(r, ns)) == IncorrectNamesByNamespace(ws, ns) {
      IncorrectNamesListed(ws, ns);
    }
    r
  }

  /** The names listed under a namespace are its incorrect names. */
  lemma IncorrectNamesListed(ws: seq<Warning>, ns: string)
    ensures (set x | x in ListAt(Summary.IncorrectNameDict(ws, true), ns)) == IncorrectNamesByNamespace(ws, ns)
  {
    var names := ListAt(Summary.IncorrectNameDict(ws, true), ns);
    forall x | x in names ensures x in IncorrectNamesByNamespace(ws, ns) {
      ListedIsIncorrect(ws, ns, x);
    }
    forall x | x in IncorrectNamesByNamespace(ws, ns) ensures x in names {
      IncorrectIsListed(ws, ns, x);
    }
  }

  lemma ListedIsIncorrect(ws: seq<Warning>, ns: string, x: string)
    requires x in ListAt(Summary.IncorrectNameDict(ws, true), ns)
    ensures x in IncorrectNamesByNamespace(ws, ns)
  {
    var keep := Both(Misnamed(true), KeyIs(Namespace, ns));
    var kept := Filter(ws, keep);
    var names := Apply(kept, Name);
    var j :| 0 <= j < |names| && names[j] == x;
    assert kept[j] in kept;
    var i :| 0 <= i < |ws| && ws[i] == kept[j];
    assert ws[i].error == MissingNamespaceName(ns, x) || ws[i].error == MissingNamespaceRegex(ns, x);
  }

  lemma IncorrectIsListed(ws: seq<Warning>, ns: string, x: string)
    requires x in IncorrectNamesByNamespace(ws, ns)
    ensures x in ListAt(Summary.IncorrectNameDict(ws, true), ns)
  {
    var keep := Both(Misnamed(true), KeyIs(Namespace, ns));
    var kept := Filter(ws, keep);
    var names := Apply(kept, Name);
    var i :| 0 <= i < |ws| && (ws[i].error == MissingNamespaceName(ns, x) || ws[i].error == MissingNamespaceRegex(ns, x));
    assert Misnamed(true)(ws[i]) && Namespace(ws[i]) == ns && Name(ws[i]) == x;
    assert KeyIs(Namespace, ns)(ws[i]);
    assert keep(ws[i]);
    assert ws[i] in ws;
    assert ws[i] in kept;
    var j :| 0 <= j < |kept| && kept[j] == ws[i];
    assert names[j] == x;
  }

  /** The text of a warning: `str(e)`. */
  function Text(w: Warning): string {
    w.text
  }

  function LineNumber(w: Warning): int {
    w.lineNumber
  }

  /** `group_errors(graph)`: for each message, the line numbers of the
      warnings with that message, in warning order. Every warning lands in
      exactly one list, so the lengths add up to the number of warnings. */
  function GroupErrors(ws: seq<Warning>): (r: map<string, seq<int>>)
    ensures r.Keys == set w | w in ws :: w.text
    ensures forall m :: ListAt(r, m) == Apply(Filter(ws, KeyIs(Text, m)), LineNumber)
    ensures Total(r) == |ws|
  {
    forall m ensures ListAt(Group(ws, Text, LineNumber), m) == Apply(Filter(ws, KeyIs(Text, m)), LineNumber) {
      GroupAt(ws, Text, LineNumber, m);
    }
    GroupTotal(ws, Text, LineNumber);
    Group(ws, Text, LineNumber)
  }

  /** `count_dict_values(group_errors(graph))`: how often each message
      occurs. */
  lemma GroupErrorsCounts(ws: seq<Warning>, m: string)
    requires m in GroupErrors(ws)
    ensures CountDictValues(GroupErrors(ws))[m] == CountWhere(ws, KeyIs(Text, m))
  {
  }
}
