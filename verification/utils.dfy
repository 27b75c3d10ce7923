/** Helpers shared by the analysis code: turning dictionaries of lists into
    dictionaries of counters or of sizes, the annotation test on edge data,
    and the default node filter. A `Counter` is a multiset. */
module Utils {
  import opened Wrappers
  import opened Seqs
  import opened BelGraph

  /** How often `x` occurs in `s`, counted position by position. */
  function Occurrences<T(==)>(s: seq<T>, x: T): (n: nat)
    ensures n <= |s|
    ensures n == 0 <==> x !in s
  {
    if |s| == 0 then 0
    else Occurrences(s[..|s| - 1], x) + (if s[|s| - 1] == x then 1 else 0)
  }

  /** `Counter(s)` counts every element of `s` by its occurrences. */
  lemma {:induction false} CounterCountsOccurrences<T>(s: seq<T>, x: T)
    ensures multiset(s)[x] == Occurrences(s, x)
  {
    if |s| > 0 {
      var front := s[..|s| - 1];
      CounterCountsOccurrences(front, x);
      assert s == front + [s[|s| - 1]];
    }
  }

  /** `count_defaultdict(d)`: the same keys, each list replaced by its
      counter. */
  function CountDefaultdict<K, V(!new)>(d: map<K, seq<V>>): (r: map<K, multiset<V>>)
    ensures r.Keys == d.Keys
    ensures forall k, x :: k in d ==> r[k][x] == Occurrences(d[k], x)
  {
    forall k, x | k in d
      ensures multiset(d[k])[x] == Occurrences(d[k], x)
    {
      CounterCountsOccurrences(d[k], x);
    }
    map k | k in d :: multiset(d[k])
  }

  /** `count_dict_values(d)` on a dictionary of lists: each list replaced
      by its length. */
  function CountDictValues<K, V>(d: map<K, seq<V>>): (r: map<K, nat>)
    ensures r.Keys == d.Keys
    ensures forall k :: k in d ==> r[k] == |multiset(d[k])|
  {
    map k | k in d :: |d[k]|
  }

  /** The distinct elements of a counter: what `len` counts. */
  function Support<T>(m: multiset<T>): set<T> {
    set x | x in m
  }

  /** `count_dict_values(d)` on a dictionary of counters: each counter
      replaced by its number of distinct elements. */
  function CountDictCounters<K, V>(d: map<K, multiset<V>>): (r: map<K, nat>)
    ensures r.Keys == d.Keys
    ensures forall k :: k in d ==> r[k] == |Support(d[k])|
  {
    map k | k in d :: |Support(d[k])|
  }

  /** A list has at most as many distinct elements as positions, and as
      many exactly when it has no repeats. */
  lemma {:induction false} DistinctElements<T>(s: seq<T>)
    ensures |set x | x in s| <= |s|
    ensures |set x | x in s| == |s| <==> Distinct(s)
  {
    if |s| > 0 {
      var front := s[..|s| - 1];
      var last := s[|s| - 1];
      DistinctElements(front);
      assert (set x | x in s) == (set x | x in front) + {last};
      if last in front {
        assert (set x | x in s) == (set x | x in front);
        var i :| 0 <= i < |front| && front[i] == last;
        assert s[i] == s[|s| - 1];
      } else {
        assert |(set x | x in s)| == |(set x | x in front)| + 1;
        if Distinct(s) {
          assert Distinct(front);
        }
      }
    }
  }

  /** Counting the counters of a dictionary of lists never gives more than
      counting the lists, and gives the same exactly for lists without
      repeats. */
  lemma CountersAtMostLengths<K, V(!new)>(d: map<K, seq<V>>, k: K)
    requires k in d
    ensures CountDictCounters(CountDefaultdict(d))[k] <= CountDictValues(d)[k]
    ensures CountDictCounters(CountDefaultdict(d))[k] == CountDictValues(d)[k] <==> Distinct(d[k])
  {
    var c := CountDefaultdict(d);
    assert c[k] == multiset(d[k]) by {
      forall x ensures c[k][x] == multiset(d[k])[x] {
        CounterCountsOccurrences(d[k], x);
      }
    }
    assert Support(c[k]) == set x | x in d[k];
    DistinctElements(d[k]);
  }

  /** `check_has_annotation(d, key)`: the data has an annotation dictionary
      and it has `key`. */
  predicate HasAnnotation(d: Attrs, key: string) {
    ANNOTATIONS in d && d[ANNOTATIONS].Dict? && key in d[ANNOTATIONS].entries
  }

  /** `d[ANNOTATIONS][key]` when `check_has_annotation(d, key)` holds. */
  function Annotation(d: Attrs, key: string): (r: Option<Value>)
    ensures r.Some? <==> HasAnnotation(d, key)
    ensures r.Some? ==> d[ANNOTATIONS] == Dict(d[ANNOTATIONS].entries[key := r.value])
  {
    if HasAnnotation(d, key) then Some(d[ANNOTATIONS].entries[key]) else None
  }

  /** `keep_node(graph, node, super_nodes)`, where `None` stands for the
      missing blacklist. Reading the node's function raises `KeyError`
      when the node or its function is missing. */
  function KeepNode(g: Graph, n: Node, superNodes: Option<set<Node>>): (r: Result<bool, Error>)
    ensures r.Failure? <==> n !in g.attrs || FUNCTION !in g.attrs[n]
    ensures r.Failure? ==> r.error.KeyError?
    ensures r.Success? ==>
      (r.value <==> g.attrs[n][FUNCTION] != Str(PATHOLOGY) && !(superNodes.Some? && n in superNodes.value))
  {
    if n !in g.attrs then Failure(KeyError("node"))
    else if FUNCTION !in g.attrs[n] then Failure(KeyError(FUNCTION))
    else if g.attrs[n][FUNCTION] == Str(PATHOLOGY) then Success(false)
    else if superNodes.Some? && superNodes.value != {} && n in superNodes.value then Success(false)
    else Success(true)
  }

  /** An empty blacklist excludes nothing, exactly like no blacklist. */
  lemma EmptyBlacklistKeeps(g: Graph, n: Node)
    ensures KeepNode(g, n, Some({})) == KeepNode(g, n, None)
  {
  }

  // ---------------------------------------------------------------------
  // defaultdict(list)

  /** A `defaultdict(list)` lookup: a missing key reads as the empty list. */
  function ListAt<K, V>(m: map<K, seq<V>>, k: K): seq<V> {
    if k in m then m[k] else []
  }

  /** The test that `key` maps an element to `k`. */
  function KeyIs<T, K(==)>(key: T -> K, k: K): T -> bool {
    x => key(x) == k
  }

  /** `d[key(x)].append(value(x))` for every `x` of `s` in order, starting
      from an empty `defaultdict(list)`. */
  function Group<T(!new), K, V>(s: seq<T>, key: T -> K, value: T -> V): (r: map<K, seq<V>>)
    ensures r.Keys == set x | x in s :: key(x)
  {
    if |s| == 0 then map[]
    else
      var front := s[..|s| - 1];
      var x := s[|s| - 1];
      assert forall y :: y in s <==> y in front || y == x;
      var m := Group(front, key, value);
      m[key(x) := ListAt(m, key(x)) + [value(x)]]
  }

  /** The list under `k` holds the values of exactly the elements that
      `key` sends to `k`, in their order and with repeats. */
  lemma {:induction false} GroupAt<T(!new), K, V>(s: seq<T>, key: T -> K, value: T -> V, k: K)
    ensures ListAt(Group(s, key, value), k) == Apply(Filter(s, KeyIs(key, k)), value)
  {
    if |s| > 0 {
      var front := s[..|s| - 1];
      var x := s[|s| - 1];
      GroupAt(front, key, value, k);
      var kept := Filter(front, KeyIs(key, k));
      if key(x) == k {
        assert (kept + [x])[..|kept + [x]| - 1] == kept;
      }
    }
  }

  /** The total length of the lists of a dictionary of lists. */
  ghost function Total<K, V>(m: map<K, seq<V>>): nat
    decreases |m.Keys|
  {
    if m.Keys == {} then 0
    else
      var k :| k in m.Keys;
      assert (m - {k}).Keys < m.Keys;
      |m[k]| + Total(m - {k})
  }

  /** The total can be taken one key at a time, starting from any key. */
  lemma {:induction false} TotalRemove<K, V>(m: map<K, seq<V>>, k: K)
    requires k in m
    ensures Total(m) == |m[k]| + Total(m - {k})
    decreases |m.Keys|
  {
    var j :| j in m.Keys && Total(m) == |m[j]| + Total(m - {j});
    if j != k {
      assert (m - {j}).Keys < m.Keys;
      assert (m - {k}).Keys < m.Keys;
      TotalRemove(m - {j}, k);
      TotalRemove(m - {k}, j);
      assert m - {j} - {k} == m - {k} - {j};
    }
  }

  /** Grouping files every element exactly once: the lists' lengths add up
      to the number of elements. */
  lemma {:induction false} GroupTotal<T(!new), K, V>(s: seq<T>, key: T -> K, value: T -> V)
    ensures Total(Group(s, key, value)) == |s|
  {
    if |s| > 0 {
      var front := s[..|s| - 1];
      var x := s[|s| - 1];
      GroupTotal(front, key, value);
      var m := Group(front, key, value);
      var r := Group(s, key, value);
      TotalRemove(r, key(x));
      assert r - {key(x)} == m - {key(x)};
      if key(x) in m {
        TotalRemove(m, key(x));
      } else {
        assert m - {key(x)} == m;
      }
    }
  }
}
