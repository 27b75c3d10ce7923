/** Small facts about sequences used throughout the model. */
module Seqs {
  import opened Wrappers

  predicate Distinct<T(==)>(s: seq<T>) {
    forall i, j :: 0 <= i < j < |s| ==> s[i] != s[j]
  }

  /** The elements of `s` that `keep` accepts, in their order in `s`. */
  function Filter<T(!new)>(s: seq<T>, keep: T -> bool): (r: seq<T>)
    ensures |r| <= |s|
    ensures forall x :: x in r <==> x in s && keep(x)
  {
    if |s| == 0 then []
    else
      var front := Filter(s[..|s| - 1], keep);
      assert forall x :: x in s <==> x in s[..|s| - 1] || x == s[|s| - 1];
      if keep(s[|s| - 1]) then front + [s[|s| - 1]] else front
  }

  lemma {:induction false} FilterAppend<T(!new)>(a: seq<T>, b: seq<T>, keep: T -> bool)
    ensures Filter(a + b, keep) == Filter(a, keep) + Filter(b, keep)
    decreases |b|
  {
    if |b| == 0 {
      assert a + b == a;
    } else {
      var b' := b[..|b| - 1];
      assert (a + b)[..|a + b| - 1] == a + b';
      FilterAppend(a, b', keep);
    }
  }

  /** `r` is `s` with some elements left out and the rest in order:
      `r[k]` is `s[idx[k]]`, with `idx` strictly increasing. */
  ghost predicate InOrderAt<T>(r: seq<T>, s: seq<T>, idx: seq<int>) {
    && |idx| == |r|
    && (forall k :: 0 <= k < |r| ==> 0 <= idx[k] < |s| && r[k] == s[idx[k]])
    && (forall k, l :: 0 <= k < l < |idx| ==> idx[k] < idx[l])
  }

  /** A filter keeps the order of what it keeps. */
  lemma {:induction false} FilterInOrder<T(!new)>(s: seq<T>, keep: T -> bool) returns (idx: seq<int>)
    ensures InOrderAt(Filter(s, keep), s, idx)
  {
    if |s| == 0 {
      idx := [];
    } else {
      var front := s[..|s| - 1];
      var f := Filter(front, keep);
      var i := FilterInOrder(front, keep);
      if keep(s[|s| - 1]) {
        assert Filter(s, keep) == f + [s[|s| - 1]];
        idx := i + [|s| - 1];
        InOrderExtend(f, s, i, s[|s| - 1]);
      } else {
        assert Filter(s, keep) == f;
        idx := i;
        InOrderGrow(f, front, s, i);
      }
    }
  }

  lemma InOrderGrow<T>(r: seq<T>, front: seq<T>, s: seq<T>, idx: seq<int>)
    requires |s| > 0 && front == s[..|s| - 1] && InOrderAt(r, front, idx)
    ensures InOrderAt(r, s, idx)
  {
    forall k | 0 <= k < |r| ensures 0 <= idx[k] < |s| && r[k] == s[idx[k]] {
      assert front[idx[k]] == s[idx[k]];
    }
  }

  lemma InOrderExtend<T>(r: seq<T>, s: seq<T>, idx: seq<int>, x: T)
    requires |s| > 0 && x == s[|s| - 1] && InOrderAt(r, s[..|s| - 1], idx)
    ensures InOrderAt(r + [x], s, idx + [|s| - 1])
  {
    InOrderGrow(r, s[..|s| - 1], s, idx);
    var r', idx' := r + [x], idx + [|s| - 1];
    forall k | 0 <= k < |r'| ensures 0 <= idx'[k] < |s| && r'[k] == s[idx'[k]] {
      if k < |r| { assert r'[k] == r[k] && idx'[k] == idx[k]; }
    }
    forall k, l | 0 <= k < l < |idx'| ensures idx'[k] < idx'[l] {
      if l < |idx| { assert idx'[k] == idx[k] && idx'[l] == idx[l]; }
      else { assert idx[k] < |s| - 1; }
    }
  }

  lemma FilterIsInOrder<T(!new)>(s: seq<T>, keep: T -> bool)
    ensures exists idx :: InOrderAt(Filter(s, keep), s, idx)
  {
    var idx := FilterInOrder(s, keep);
  }

  lemma {:induction false} FilterKeepsDistinct<T(!new)>(s: seq<T>, keep: T -> bool)
    requires Distinct(s)
    ensures Distinct(Filter(s, keep))
  {
    if |s| > 0 {
      var front := s[..|s| - 1];
      assert Distinct(front);
      FilterKeepsDistinct(front, keep);
      assert s[|s| - 1] !in front;
    }
  }

  /** Filtering counts each kept value as often as the input holds it, so
      it depends only on the input's contents. */
  lemma {:induction false} FilterMultiset<T(!new)>(s: seq<T>, keep: T -> bool, x: T)
    ensures multiset(Filter(s, keep))[x] == if keep(x) then multiset(s)[x] else 0
  {
    if |s| > 0 {
      var front := s[..|s| - 1];
      FilterMultiset(front, keep, x);
      assert s == front + [s[|s| - 1]];
    }
  }

  /** The number of elements of `s` that `p` accepts. */
  function CountWhere<T(!new)>(s: seq<T>, p: T -> bool): (n: nat)
    ensures n == |Filter(s, p)|
  {
    if |s| == 0 then 0
    else CountWhere(s[..|s| - 1], p) + (if p(s[|s| - 1]) then 1 else 0)
  }

  /** A sequence without repeats has as many elements as its set. */
  lemma {:induction false} DistinctCardinality<T>(s: seq<T>)
    requires Distinct(s)
    ensures |set x | x in s| == |s|
  {
    if |s| > 0 {
      var front := s[..|s| - 1];
      DistinctCardinality(front);
      assert (set x | x in s) == (set x | x in front) + {s[|s| - 1]};
      assert s[|s| - 1] !in front;
    }
  }

  /** A sequence without repeats whose members are exactly two distinct
      values has length two. */
  lemma PairOfMembers<T>(s: seq<T>, a: T, b: T)
    requires Distinct(s) && a != b
    requires forall y :: y in s <==> y == a || y == b
    ensures |s| == 2
  {
    DistinctCardinality(s);
    assert (set x | x in s) == {a, b};
  }

  /** A non-empty sequence has a member: its head. */
  lemma HeadMember<T>(s: seq<T>)
    ensures s == [] || s[0] in s
  {
  }

  /** A sequence without repeats whose only member is `x` is `[x]`. */
  lemma OnlyMember<T>(s: seq<T>, x: T)
    requires Distinct(s) && x in s && forall y :: y in s ==> y == x
    ensures s == [x]
  {
    TwoMembers(s);
    assert |s| < 2;
  }

  /** A sequence of two or more elements has its first two as members. */
  lemma TwoMembers<T>(s: seq<T>)
    ensures |s| < 2 || (s[0] in s && s[1] in s)
  {
  }

  /** A Python dictionary as its list of items: no key occurs twice. */
  predicate DistinctKeys<K(==), V>(items: seq<(K, V)>) {
    forall i, j :: 0 <= i < j < |items| ==> items[i].0 != items[j].0
  }

  /** The value stored under `k`; the last pair wins, as in `dict(items)`. */
  function Lookup<K(==), V>(items: seq<(K, V)>, k: K): (r: Option<V>)
    ensures r.None? <==> forall i :: 0 <= i < |items| ==> items[i].0 != k
    ensures r.Some? ==> (k, r.value) in items
  {
    if |items| == 0 then None
    else if items[|items| - 1].0 == k then Some(items[|items| - 1].1)
    else
      var r := Lookup(items[..|items| - 1], k);
      assert r.Some? ==> (k, r.value) in items[..|items| - 1];
      r
  }

  lemma LookupAppend<K, V>(items: seq<(K, V)>, k: K, v: V, x: K)
    ensures Lookup(items + [(k, v)], x) == if x == k then Some(v) else Lookup(items, x)
  {
    assert (items + [(k, v)])[..|items|] == items;
  }
  /** A filter that accepts every element changes nothing. */
  lemma {:induction false} FilterKeepsAll<T(!new)>(s: seq<T>, keep: T -> bool)
    requires forall i :: 0 <= i < |s| ==> keep(s[i])
    ensures Filter(s, keep) == s
  {
    if |s| > 0 {
      FilterKeepsAll(s[..|s| - 1], keep);
      assert s[..|s| - 1] + [s[|s| - 1]] == s;
    }
  }

  /** The concatenation of the sequences of `ss`, in order. */
  function Flatten<T>(ss: seq<seq<T>>): seq<T> {
    if |ss| == 0 then [] else Flatten(ss[..|ss| - 1]) + ss[|ss| - 1]
  }

  lemma {:induction false} FlattenAppend<T>(a: seq<seq<T>>, b: seq<seq<T>>)
    ensures Flatten(a + b) == Flatten(a) + Flatten(b)
    decreases |b|
  {
    if |b| == 0 {
      assert a + b == a;
    } else {
      var b' := b[..|b| - 1];
      assert (a + b)[..|a + b| - 1] == a + b';
      FlattenAppend(a, b');
    }
  }

  /** Every element of the concatenation comes from one of the pieces, and
      every piece's elements are in it. */
  lemma {:induction false} FlattenMembers<T>(ss: seq<seq<T>>, x: T)
    ensures x in Flatten(ss) <==> exists i :: 0 <= i < |ss| && x in ss[i]
  {
    if |ss| > 0 {
      var front := ss[..|ss| - 1];
      FlattenMembers(front, x);
      if x in Flatten(ss) && x !in Flatten(front) {
        assert x in ss[|ss| - 1];
      }
      if exists i :: 0 <= i < |ss| && x in ss[i] {
        var i :| 0 <= i < |ss| && x in ss[i];
        if i < |ss| - 1 {
          assert front[i] == ss[i];
        }
      }
    }
  }

  /** Piece `i` sits in the concatenation right after the pieces before it. */
  lemma {:induction false} FlattenSlice<T>(ss: seq<seq<T>>, i: nat)
    requires i < |ss|
    ensures |Flatten(ss[..i])| + |ss[i]| <= |Flatten(ss)|
    ensures Flatten(ss)[|Flatten(ss[..i])|..|Flatten(ss[..i])| + |ss[i]|] == ss[i]
  {
    assert ss == ss[..i] + [ss[i]] + ss[i + 1..];
    FlattenAppend(ss[..i] + [ss[i]], ss[i + 1..]);
    FlattenAppend(ss[..i], [ss[i]]);
    assert Flatten([ss[i]]) == ss[i] by {
      assert [ss[i]][..0] == [];
    }
  }

  /** `[f(x) for x in s]`. */
  function Apply<T, U>(s: seq<T>, f: T -> U): (r: seq<U>)
    ensures |r| == |s|
    ensures forall i :: 0 <= i < |s| ==> r[i] == f(s[i])
  {
    if |s| == 0 then [] else Apply(s[..|s| - 1], f) + [f(s[|s| - 1])]
  }

  /** The test that accepts what both `p` and `q` accept. */
  function Both<T>(p: T -> bool, q: T -> bool): T -> bool {
    x => p(x) && q(x)
  }

  /** Filtering twice is filtering once by both tests. */
  lemma {:induction false} FilterFilter<T(!new)>(s: seq<T>, p: T -> bool, q: T -> bool)
    ensures Filter(Filter(s, p), q) == Filter(s, Both(p, q))
  {
    if |s| > 0 {
      FilterFilter(s[..|s| - 1], p, q);
      var x := s[|s| - 1];
      if p(x) {
        var once := Filter(s[..|s| - 1], p);
        assert (once + [x])[..|once + [x]| - 1] == once;
      }
    }
  }

  /** A weaker test accepts at least as many elements. */
  lemma {:induction false} CountWhereImplies<T(!new)>(s: seq<T>, p: T -> bool, q: T -> bool)
    requires forall x :: p(x) ==> q(x)
    ensures CountWhere(s, p) <= CountWhere(s, q)
  {
    if |s| > 0 {
      CountWhereImplies(s[..|s| - 1], p, q);
    }
  }

  /** Two tests that agree on every element filter alike. */
  lemma {:induction false} FilterAgree<T(!new)>(s: seq<T>, p: T -> bool, q: T -> bool)
    requires forall i :: 0 <= i < |s| ==> p(s[i]) == q(s[i])
    ensures Filter(s, p) == Filter(s, q)
  {
    if |s| > 0 {
      FilterAgree(s[..|s| - 1], p, q);
    }
  }
}
