/** Python's `sorted` on strings and on records sorted by a string key.
    Strings compare by code point, lexicographically; `sorted` is stable. */
module Sorting {
  import opened Seqs

  /** `a <= b` on Python strings. */
  predicate StrLe(a: string, b: string)
    decreases |a|
  {
    |a| == 0 || (|b| > 0 && (a[0] < b[0] || (a[0] == b[0] && StrLe(a[1..], b[1..]))))
  }

  lemma {:induction false} StrLeReflexive(a: string)
    ensures StrLe(a, a)
    decreases |a|
  {
    if |a| > 0 {
      StrLeReflexive(a[1..]);
    }
  }

  lemma {:induction false} StrLeTotal(a: string, b: string)
    ensures StrLe(a, b) || StrLe(b, a)
    decreases |a|
  {
    if |a| > 0 && |b| > 0 && a[0] == b[0] {
      StrLeTotal(a[1..], b[1..]);
    }
  }

  lemma {:induction false} StrLeTransitive(a: string, b: string, c: string)
    requires StrLe(a, b) && StrLe(b, c)
    ensures StrLe(a, c)
    decreases |a|
  {
    if |a| > 0 && a[0] == b[0] && b[0] == c[0] {
      StrLeTransitive(a[1..], b[1..], c[1..]);
    }
  }

  lemma {:induction false} StrLeAntisymmetric(a: string, b: string)
    requires StrLe(a, b) && StrLe(b, a)
    ensures a == b
    decreases |a|
  {
    if |a| > 0 {
      StrLeAntisymmetric(a[1..], b[1..]);
      assert a == [a[0]] + a[1..] && b == [b[0]] + b[1..];
    }
  }

  /** The order `sorted(s, key=key)` produces. */
  predicate SortedBy<T>(s: seq<T>, key: T -> string) {
    forall i, j :: 0 <= i < j < |s| ==> StrLe(key(s[i]), key(s[j]))
  }

  /** The elements of `s` whose key is `k`, in their order in `s`. */
  function WithKey<T>(s: seq<T>, key: T -> string, k: string): (r: seq<T>)
    ensures |r| <= |s|
  {
    if |s| == 0 then []
    else WithKey(s[..|s| - 1], key, k) + (if key(s[|s| - 1]) == k then [s[|s| - 1]] else [])
  }

  /** One step of insertion sort: `x` goes after every element whose key is
      not greater than its own, which keeps the sort stable. */
  function Insert<T>(x: T, s: seq<T>, key: T -> string): (r: seq<T>)
    requires SortedBy(s, key)
    ensures SortedBy(r, key)
    ensures multiset(r) == multiset(s) + multiset{x}
    decreases |s|
  {
    if |s| == 0 then [x]
    else
      var y := s[|s| - 1];
      if StrLe(key(y), key(x)) then
        AppendKeepsSorted(s, x, key);
        s + [x]
      else
        var front := s[..|s| - 1];
        assert SortedBy(front, key);
        var r' := Insert(x, front, key);
        assert s == front + [y];
        StrLeTotal(key(y), key(x));
        InsertStepKeepsSorted(x, front, r', y, key);
        r' + [y]
  }

  lemma {:induction false} WithKeyAppend<T>(s: seq<T>, y: T, key: T -> string, k: string)
    ensures WithKey(s + [y], key, k) == WithKey(s, key, k) + (if key(y) == k then [y] else [])
  {
    assert (s + [y])[..|s|] == s;
  }

  /** Insertion keeps the relative order of elements with equal keys: `x`
      lands after every element whose key equals its own. */
  lemma {:induction false} InsertIsStable<T>(x: T, s: seq<T>, key: T -> string, k: string)
    requires SortedBy(s, key)
    ensures WithKey(Insert(x, s, key), key, k) == WithKey(s, key, k) + (if key(x) == k then [x] else [])
    decreases |s|
  {
    if |s| == 0 {
      assert Insert(x, s, key) == [x];
      WithKeyAppend(s, x, key, k);
    } else if StrLe(key(s[|s| - 1]), key(x)) {
      assert Insert(x, s, key) == s + [x];
      WithKeyAppend(s, x, key, k);
    } else {
      var front := s[..|s| - 1];
      assert SortedBy(front, key);
      assert Insert(x, s, key) == Insert(x, front, key) + [s[|s| - 1]];
      InsertIsStable(x, front, key, k);
      if key(s[|s| - 1]) == k && key(x) == k {
        StrLeReflexive(k);
        assert false;
      }
      StableStep(Insert(x, front, key), front, x, s[|s| - 1], key, k);
      assert front + [s[|s| - 1]] == s;
    }
  }

  /** Appending `y` after `x`'s insertion point keeps `x` ahead of `y` among
      the elements with key `k`, unless both have that key. */
  lemma StableStep<T>(a: seq<T>, front: seq<T>, x: T, y: T, key: T -> string, k: string)
    requires WithKey(a, key, k) == WithKey(front, key, k) + (if key(x) == k then [x] else [])
    requires !(key(y) == k && key(x) == k)
    ensures WithKey(a + [y], key, k) == WithKey(front + [y], key, k) + (if key(x) == k then [x] else [])
  {
    WithKeyAppend(a, y, key, k);
    WithKeyAppend(front, y, key, k);
  }

  lemma {:induction false} AppendKeepsSorted<T>(s: seq<T>, x: T, key: T -> string)
    requires SortedBy(s, key)
    requires |s| > 0 ==> StrLe(key(s[|s| - 1]), key(x))
    ensures SortedBy(s + [x], key)
  {
    var t := s + [x];
    forall i, j | 0 <= i < j < |t|
      ensures StrLe(key(t[i]), key(t[j]))
    {
      if j == |s| && i < |s| - 1 {
        StrLeTransitive(key(s[i]), key(s[|s| - 1]), key(x));
      }
    }
  }

  lemma {:induction false} InsertStepKeepsSorted<T>(x: T, front: seq<T>, r': seq<T>, y: T, key: T -> string)
    requires SortedBy(front + [y], key)
    requires SortedBy(r', key)
    requires multiset(r') == multiset(front) + multiset{x}
    requires StrLe(key(x), key(y))
    ensures SortedBy(r' + [y], key)
  {
    if |r'| > 0 {
      var last := r'[|r'| - 1];
      assert last in multiset(r');
      if last != x {
        assert last in multiset(front);
        var i :| 0 <= i < |front| && front[i] == last;
        assert (front + [y])[i] == last && (front + [y])[|front|] == y;
      }
    }
    AppendKeepsSorted(r', y, key);
  }

  /** `sorted(s, key=key)`: an ordered permutation of `s`. */
  function SortBy<T>(s: seq<T>, key: T -> string): (r: seq<T>)
    ensures SortedBy(r, key)
    ensures multiset(r) == multiset(s)
    ensures |r| == |s|
  {
    if |s| == 0 then []
    else
      var front := s[..|s| - 1];
      assert s == front + [s[|s| - 1]];
      var r := Insert(s[|s| - 1], SortBy(front, key), key);
      assert |multiset(r)| == |r| && |multiset(s)| == |s|;
      r
  }

  /** `sorted` is stable: the elements sharing a key keep their input order. */
  lemma {:induction false} SortIsStable<T>(s: seq<T>, key: T -> string, k: string)
    ensures WithKey(SortBy(s, key), key, k) == WithKey(s, key, k)
  {
    if |s| > 0 {
      var front := s[..|s| - 1];
      assert s == front + [s[|s| - 1]];
      SortIsStable(front, key, k);
      InsertIsStable(s[|s| - 1], SortBy(front, key), key, k);
      WithKeyAppend(front, s[|s| - 1], key, k);
    }
  }

  /** Sorting what is already in order changes nothing. */
  lemma {:induction false} SortSortedIsIdentity<T>(s: seq<T>, key: T -> string)
    requires SortedBy(s, key)
    ensures SortBy(s, key) == s
  {
    if |s| > 0 {
      var front := s[..|s| - 1];
      assert SortedBy(front, key);
      SortSortedIsIdentity(front, key);
      if |front| > 0 {
        assert StrLe(key(front[|front| - 1]), key(s[|s| - 1]));
      }
      assert front + [s[|s| - 1]] == s;
    }
  }

  /** The order on plain strings: `sorted(s)`. */
  function Identity(x: string): string {
    x
  }

  predicate Sorted(s: seq<string>) {
    SortedBy(s, Identity)
  }

  function Sort(s: seq<string>): (r: seq<string>)
    ensures Sorted(r)
    ensures multiset(r) == multiset(s)
  {
    SortBy(s, Identity)
  }

  /** Two ordered arrangements of the same strings are the same sequence, so
      `sorted` of a list depends only on the list's contents. */
  lemma {:induction false} SortedUnique(a: seq<string>, b: seq<string>)
    requires Sorted(a) && Sorted(b)
    requires multiset(a) == multiset(b)
    ensures a == b
    decreases |a|
  {
    assert |multiset(a)| == |a| && |multiset(b)| == |b|;
    if |a| > 0 {
      HeadIsLeast(a, b[0]);
      HeadIsLeast(b, a[0]);
      StrLeAntisymmetric(a[0], b[0]);
      assert a == [a[0]] + a[1..] && b == [b[0]] + b[1..];
      assert multiset(a[1..]) == multiset(a) - multiset{a[0]};
      assert multiset(b[1..]) == multiset(b) - multiset{b[0]};
      TailSorted(a);
      TailSorted(b);
      SortedUnique(a[1..], b[1..]);
    }
  }

  lemma {:induction false} HeadIsLeast(a: seq<string>, x: string)
    requires Sorted(a) && x in multiset(a)
    ensures StrLe(a[0], x)
  {
    var i :| 0 <= i < |a| && a[i] == x;
    if i > 0 {
      assert StrLe(Identity(a[0]), Identity(a[i]));
    } else {
      StrLeReflexive(x);
    }
  }

  lemma {:induction false} TailSorted(a: seq<string>)
    requires Sorted(a) && |a| > 0
    ensures Sorted(a[1..])
  {
    forall p, q | 0 <= p < q < |a| - 1
      ensures StrLe(Identity(a[1..][p]), Identity(a[1..][q]))
    {
      assert a[1..][p] == a[p + 1] && a[1..][q] == a[q + 1];
    }
  }

  /** `sorted(set(s))`: the distinct strings of `s`, in order. */
  function SortDistinct(s: seq<string>): (r: seq<string>)
    ensures Sorted(r)
    ensures forall x :: x in r <==> x in s
    ensures Distinct(r)
  {
    var d := Dedup(s);
    var r := Sort(d);
    assert forall x :: x in r <==> x in multiset(r);
    assert forall x :: x in d <==> x in multiset(d);
    PermutationOfDistinct(d, r);
    r
  }

  lemma {:induction false} PermutationOfDistinct(d: seq<string>, r: seq<string>)
    requires Distinct(d)
    requires multiset(r) == multiset(d)
    ensures Distinct(r)
  {
    forall i, j | 0 <= i < j < |r|
      ensures r[i] != r[j]
    {
      if r[i] == r[j] {
        TwiceCountsTwice(r, i, j);
        DistinctCount(d, r[i]);
      }
    }
  }

  lemma {:induction false} TwiceCountsTwice(r: seq<string>, i: nat, j: nat)
    requires i < j < |r| && r[i] == r[j]
    ensures multiset(r)[r[i]] >= 2
  {
    assert r == r[..j] + [r[j]] + r[j + 1..];
    assert r[..j][i] == r[i];
    assert r[i] in multiset(r[..j]);
    assert multiset(r) == multiset(r[..j]) + multiset{r[j]} + multiset(r[j + 1..]);
  }

  /** The first occurrence of each string of `s`, in order of appearance. */
  function Dedup(s: seq<string>): (r: seq<string>)
    ensures forall x :: x in r <==> x in s
    ensures Distinct(r)
  {
    if |s| == 0 then []
    else
      var front := Dedup(s[..|s| - 1]);
      assert forall x :: x in s <==> x in s[..|s| - 1] || x == s[|s| - 1];
      if s[|s| - 1] in front then front else front + [s[|s| - 1]]
  }

  lemma {:induction false} DistinctCount(s: seq<string>, x: string)
    requires Distinct(s)
    ensures multiset(s)[x] <= 1
  {
    if |s| > 0 {
      var front := s[..|s| - 1];
      assert s == front + [s[|s| - 1]];
      DistinctCount(front, x);
      if x == s[|s| - 1] {
        assert x !in front;
      }
    }
  }

  /** Dropping elements from an ordered sequence keeps it ordered. */
  lemma {:induction false} FilterKeepsSorted<T(!new)>(s: seq<T>, keep: T -> bool, key: T -> string)
    requires SortedBy(s, key)
    ensures SortedBy(Filter(s, keep), key)
  {
    if |s| > 0 {
      var front := s[..|s| - 1];
      var last := s[|s| - 1];
      assert SortedBy(front, key);
      FilterKeepsSorted(front, keep, key);
      var f := Filter(front, keep);
      forall i | 0 <= i < |f|
        ensures StrLe(key(f[i]), key(last))
      {
        assert f[i] in front;
        var k :| 0 <= k < |front| && front[k] == f[i];
      }
    }
  }
}
