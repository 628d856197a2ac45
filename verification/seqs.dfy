/** Generic sequence toolkit used by the store and the reports: filtering,
    summing, sorting with a comparator, sorted listings of integer sets and
    the grouped-sum partition law. Every recursion peels the LAST element, so
    that appending a row (an INSERT) unfolds in one step. */
module Seqs {

  function Filter<T(!new)>(s: seq<T>, p: T -> bool): (r: seq<T>)
    ensures |r| <= |s|
    ensures forall x :: x in r <==> x in s && p(x)
    ensures forall i :: 0 <= i < |r| ==> p(r[i])
  {
    if s == [] then []
    else Filter(s[..|s| - 1], p) + (if p(s[|s| - 1]) then [s[|s| - 1]] else [])
  }

  lemma FilterAppend<T(!new)>(s: seq<T>, x: T, p: T -> bool)
    ensures Filter(s + [x], p) == Filter(s, p) + (if p(x) then [x] else [])
  {
    assert (s + [x])[..|s|] == s;
  }

  lemma {:induction false} FilterNone<T(!new)>(s: seq<T>, p: T -> bool)
    requires forall x :: x in s ==> !p(x)
    ensures Filter(s, p) == []
  {
    if s != [] {
      FilterNone(s[..|s| - 1], p);
    }
  }

  /** Filtering twice is filtering once by the stronger test. */
  lemma {:induction false} FilterSubsumed<T(!new)>(s: seq<T>, p: T -> bool, q: T -> bool)
    requires forall x :: q(x) ==> p(x)
    ensures Filter(Filter(s, p), q) == Filter(s, q)
  {
    if s != [] {
      var s', x := s[..|s| - 1], s[|s| - 1];
      FilterSubsumed(s', p, q);
      assert Filter(s, q) == Filter(s', q) + (if q(x) then [x] else []);
      if p(x) {
        assert Filter(s, p) == Filter(s', p) + [x];
        FilterAppend(Filter(s', p), x, q);
      } else {
        assert Filter(s, p) == Filter(s', p) + [];
        assert Filter(s, p) == Filter(s', p);
      }
    }
  }

  /** Two tests that agree on the elements of `s` select the same rows. */
  lemma {:induction false} FilterCongruent<T(!new)>(s: seq<T>, p: T -> bool, q: T -> bool)
    requires forall x :: x in s ==> p(x) == q(x)
    ensures Filter(s, p) == Filter(s, q)
  {
    if s != [] {
      FilterCongruent(s[..|s| - 1], p, q);
    }
  }

  /** A relation that holds between every earlier and later element still
      holds after filtering: a filter keeps the relative order. */
  lemma {:induction false} FilterKeepsOrder<T(!new)>(s: seq<T>, p: T -> bool, rel: (T, T) -> bool)
    requires forall i, j :: 0 <= i < j < |s| ==> rel(s[i], s[j])
    ensures forall i, j :: 0 <= i < j < |Filter(s, p)| ==> rel(Filter(s, p)[i], Filter(s, p)[j])
  {
    if s != [] {
      var s', x := s[..|s| - 1], s[|s| - 1];
      FilterKeepsOrder(s', p, rel);
      var f := Filter(s', p);
      var r := Filter(s, p);
      forall i, j | 0 <= i < j < |r| ensures rel(r[i], r[j]) {
        if j == |f| {
          var k :| 0 <= k < |s'| && s'[k] == r[i];
        }
      }
    }
  }

  /** Rows of `s` whose key is `k`: one group of a GROUP BY. */
  function KeyFilter<T(!new)>(s: seq<T>, key: T -> int, k: int): (r: seq<T>)
    ensures forall x :: x in r <==> x in s && key(x) == k
  {
    Filter(s, x => key(x) == k)
  }

  lemma KeyFilterAppend<T(!new)>(s: seq<T>, x: T, key: T -> int, k: int)
    ensures KeyFilter(s + [x], key, k) == KeyFilter(s, key, k) + (if key(x) == k then [x] else [])
  {
    FilterAppend(s, x, y => key(y) == k);
  }

  function SumOf<T>(s: seq<T>, f: T -> int): int
  {
    if s == [] then 0 else SumOf(s[..|s| - 1], f) + f(s[|s| - 1])
  }

  lemma SumOfAppend<T>(s: seq<T>, x: T, f: T -> int)
    ensures SumOf(s + [x], f) == SumOf(s, f) + f(x)
  {
    assert (s + [x])[..|s|] == s;
  }

  lemma {:induction false} SumOfConcat<T>(a: seq<T>, b: seq<T>, f: T -> int)
    ensures SumOf(a + b, f) == SumOf(a, f) + SumOf(b, f)
    decreases |b|
  {
    if b == [] {
      assert a + b == a;
    } else {
      var b' := b[..|b| - 1];
      assert a + b == (a + b') + [b[|b| - 1]];
      SumOfAppend(a + b', b[|b| - 1], f);
      SumOfConcat(a, b', f);
    }
  }

  /** Summing two sequences that agree pointwise under `f` and `g`. */
  lemma {:induction false} SumOfPointwise<T, U>(a: seq<T>, f: T -> int, b: seq<U>, g: U -> int)
    requires |a| == |b|
    requires forall i :: 0 <= i < |a| ==> f(a[i]) == g(b[i])
    ensures SumOf(a, f) == SumOf(b, g)
  {
    if a != [] {
      SumOfPointwise(a[..|a| - 1], f, b[..|b| - 1], g);
    }
  }

  lemma SumOfSameFunction<T>(s: seq<T>, f: T -> int, g: T -> int)
    requires forall x :: x in s ==> f(x) == g(x)
    ensures SumOf(s, f) == SumOf(s, g)
  {
    SumOfPointwise(s, f, s, g);
  }

  /** Dropping rows for which `p` fails is the same as counting them as 0. */
  lemma {:induction false} SumOfFilter<T(!new)>(s: seq<T>, p: T -> bool, f: T -> int, g: T -> int)
    requires forall x :: g(x) == if p(x) then f(x) else 0
    ensures SumOf(Filter(s, p), f) == SumOf(s, g)
  {
    if s != [] {
      var s', x := s[..|s| - 1], s[|s| - 1];
      SumOfFilter(s', p, f, g);
      assert SumOf(s, g) == SumOf(s', g) + g(x);
      if p(x) {
        assert Filter(s, p) == Filter(s', p) + [x];
        SumOfAppend(Filter(s', p), x, f);
      } else {
        assert Filter(s, p) == Filter(s', p) + [];
        assert Filter(s', p) + [] == Filter(s', p);
      }
    }
  }

  lemma SumOfRemove<T>(b: seq<T>, k: int, f: T -> int)
    requires 0 <= k < |b|
    ensures SumOf(b, f) == SumOf(b[..k] + b[k + 1..], f) + f(b[k])
  {
    var pre, x, post := b[..k], b[k], b[k + 1..];
    assert b[..k + 1] == pre + [x];
    assert b == b[..k + 1] + post;
    SumOfConcat(pre + [x], post, f);
    SumOfAppend(pre, x, f);
    SumOfConcat(pre, post, f);
  }

  lemma MultisetRemove<T>(b: seq<T>, k: int)
    requires 0 <= k < |b|
    ensures multiset(b[..k] + b[k + 1..]) == multiset(b) - multiset{b[k]}
  {
    assert b == b[..k] + [b[k]] + b[k + 1..];
  }

  /** The sum does not depend on the order of the rows. */
  lemma {:induction false} SumOfPermutation<T>(a: seq<T>, b: seq<T>, f: T -> int)
    requires multiset(a) == multiset(b)
    ensures SumOf(a, f) == SumOf(b, f)
    decreases |a|
  {
    if a == [] {
      assert |b| == |multiset(b)| == 0;
    } else {
      var a', x := a[..|a| - 1], a[|a| - 1];
      assert a == a' + [x];
      assert x in multiset(b);
      var k :| 0 <= k < |b| && b[k] == x;
      MultisetRemove(b, k);
      assert multiset(a') == multiset(a) - multiset{x};
      SumOfPermutation(a', b[..k] + b[k + 1..], f);
      SumOfRemove(b, k, f);
      SumOfAppend(a', x, f);
    }
  }

  lemma {:induction false} SumOfNonNegative<T>(s: seq<T>, f: T -> int)
    requires forall x :: x in s ==> f(x) >= 0
    ensures SumOf(s, f) >= 0
  {
    if s != [] {
      SumOfNonNegative(s[..|s| - 1], f);
    }
  }

  lemma {:induction false} SumOfMonotone<T>(s: seq<T>, f: T -> int, g: T -> int)
    requires forall x :: x in s ==> f(x) <= g(x)
    ensures SumOf(s, f) <= SumOf(s, g)
  {
    if s != [] {
      SumOfMonotone(s[..|s| - 1], f, g);
    }
  }

  function One<T>(x: T): int { 1 }

  lemma {:induction false} SumOfOneIsLength<T>(s: seq<T>)
    ensures SumOf(s, One) == |s|
  {
    if s != [] {
      SumOfOneIsLength(s[..|s| - 1]);
    }
  }

  // ---------------------------------------------------------------------------
  // Sorting with a comparator (ORDER BY): insertion sort, proved sorted and a
  // permutation of its input. Ties keep no particular order, as in SQL.

  ghost predicate TotalPreorder<T(!new)>(le: (T, T) -> bool)
  {
    && (forall a, b :: le(a, b) || le(b, a))
    && (forall a, b, c :: le(a, b) && le(b, c) ==> le(a, c))
  }

  predicate Sorted<T>(s: seq<T>, le: (T, T) -> bool)
  {
    forall i, j :: 0 <= i < j < |s| ==> le(s[i], s[j])
  }

  function Insert<T(!new)>(x: T, s: seq<T>, le: (T, T) -> bool): (r: seq<T>)
    requires TotalPreorder(le) && Sorted(s, le)
    ensures Sorted(r, le)
    ensures multiset(r) == multiset(s) + multiset{x}
    ensures |r| == |s| + 1
  {
    if s == [] then [x]
    else if le(x, s[0]) then [x] + s
    else
      var t := Insert(x, s[1..], le);
      assert s == [s[0]] + s[1..];
      assert forall y :: y in t ==> le(s[0], y) by {
        forall y | y in t ensures le(s[0], y) {
          assert y in multiset(t);
          if y != x {
            assert y in multiset(s[1..]);
            var k :| 0 <= k < |s[1..]| && s[1..][k] == y;
            assert s[k + 1] == y;
          }
        }
      }
      [s[0]] + t
  }

  function Sort<T(!new)>(s: seq<T>, le: (T, T) -> bool): (r: seq<T>)
    requires TotalPreorder(le)
    ensures Sorted(r, le)
    ensures multiset(r) == multiset(s)
    ensures |r| == |s|
  {
    if s == [] then []
    else
      assert s == s[..|s| - 1] + [s[|s| - 1]];
      Insert(s[|s| - 1], Sort(s[..|s| - 1], le), le)
  }

  /** Sequences with the same multiset have the same elements. */
  lemma SameElements<T>(a: seq<T>, b: seq<T>)
    requires multiset(a) == multiset(b)
    ensures forall x :: x in a <==> x in b
  {
    forall x ensures x in a <==> x in b {
      assert x in a <==> x in multiset(a);
      assert x in b <==> x in multiset(b);
    }
  }

  /** The head of a sorted listing precedes every element of the input. */
  lemma SortHead<T(!new)>(s: seq<T>, le: (T, T) -> bool)
    requires TotalPreorder(le) && s != []
    ensures Sort(s, le) != [] && Sort(s, le)[0] in s
    ensures forall x :: x in s ==> x == Sort(s, le)[0] || le(Sort(s, le)[0], x)
  {
    var r := Sort(s, le);
    assert r[0] in multiset(r);
    forall x | x in s ensures x == r[0] || le(r[0], x) {
      assert x in multiset(r);
      var k :| 0 <= k < |r| && r[k] == x;
    }
  }

  // ---------------------------------------------------------------------------
  // Sorted listing of a finite set of integers (the distinct days of a
  // GROUP BY ... ORDER BY day).

  predicate StrictlyIncreasing(s: seq<int>)
  {
    forall i, j :: 0 <= i < j < |s| ==> s[i] < s[j]
  }

  predicate StrictlyDecreasing(s: seq<int>)
  {
    forall i, j :: 0 <= i < j < |s| ==> s[i] > s[j]
  }

  predicate IsMax(m: int, s: set<int>)
  {
    m in s && forall y :: y in s ==> y <= m
  }

  /** A set is empty or has an element; it lies within {x} or has an
      element other than x. */
  lemma Elements(s: set<int>, x: int)
    ensures s == {} || exists y :: y in s
    ensures s <= {x} || exists y :: y in s && y != x
  {
    if !exists y :: y in s {
      assert s == {};
    }
    if !exists y :: y in s && y != x {
      assert s <= {x};
    }
  }

  lemma {:induction false} MaxExists(s: set<int>)
    requires s != {}
    ensures exists m :: IsMax(m, s)
    decreases |s|
  {
    Elements(s, 0);
    var x :| x in s;
    if s == {x} {
      assert IsMax(x, s);
    } else {
      var rest := s - {x};
      Elements(s, x);
      var y :| y in s && y != x;
      assert y in rest;
      MaxExists(rest);
      var m :| IsMax(m, rest);
      var best := if x > m then x else m;
      forall z | z in s ensures z <= best {
        if z != x {
          assert z in rest;
        }
      }
      assert IsMax(best, s);
    }
  }

  /** The elements of `s` in increasing order. */
  function SortedElements(s: set<int>): (r: seq<int>)
    ensures StrictlyIncreasing(r)
    ensures forall x :: x in r <==> x in s
    ensures |r| == |s|
    decreases |s|
  {
    if s == {} then []
    else
      MaxExists(s);
      var m :| IsMax(m, s);
      SortedElements(s - {m}) + [m]
  }

  function Reverse<T>(s: seq<T>): (r: seq<T>)
    ensures |r| == |s|
    ensures forall i :: 0 <= i < |s| ==> r[i] == s[|s| - 1 - i]
  {
    if s == [] then [] else [s[|s| - 1]] + Reverse(s[..|s| - 1])
  }

  /** Reversing an increasing listing gives a decreasing one with the same
      elements. */
  lemma ReverseIncreasing(s: seq<int>)
    requires StrictlyIncreasing(s)
    ensures StrictlyDecreasing(Reverse(s))
    ensures forall x :: x in Reverse(s) <==> x in s
  {
    var r := Reverse(s);
    forall i, j | 0 <= i < j < |r| ensures r[i] > r[j] {
      assert r[i] == s[|s| - 1 - i] && r[j] == s[|s| - 1 - j];
    }
    forall x | x in s ensures x in r {
      var k :| 0 <= k < |s| && s[k] == x;
      assert r[|s| - 1 - k] == x;
    }
  }

  // ---------------------------------------------------------------------------
  // Grouped sums: summing the groups of a GROUP BY over distinct keys that
  // cover every row gives the sum over all rows.

  predicate Distinct(keys: seq<int>)
  {
    forall i, j :: 0 <= i < j < |keys| ==> keys[i] != keys[j]
  }

  /** Sum over the keys of the per-key subtotals. */
  function GroupSums<T(!new)>(s: seq<T>, key: T -> int, val: T -> int, keys: seq<int>): int
  {
    if keys == [] then 0
    else GroupSums(s, key, val, keys[..|keys| - 1]) + SumOf(KeyFilter(s, key, keys[|keys| - 1]), val)
  }

  lemma {:induction false} GroupSumsAppendRow<T(!new)>(s: seq<T>, x: T, key: T -> int, val: T -> int, keys: seq<int>)
    requires Distinct(keys)
    ensures GroupSums(s + [x], key, val, keys)
         == GroupSums(s, key, val, keys) + (if key(x) in keys then val(x) else 0)
  {
    if keys != [] {
      var keys', k := keys[..|keys| - 1], keys[|keys| - 1];
      assert keys == keys' + [k];
      GroupSumsAppendRow(s, x, key, val, keys');
      KeyFilterAppend(s, x, key, k);
      if key(x) == k {
        SumOfAppend(KeyFilter(s, key, k), x, val);
        assert key(x) !in keys' by {
          forall i | 0 <= i < |keys'| ensures keys'[i] != k {
            assert keys[i] != keys[|keys| - 1];
          }
        }
      } else {
        assert KeyFilter(s + [x], key, k) == KeyFilter(s, key, k);
      }
      assert key(x) in keys <==> key(x) in keys' || key(x) == k;
    }
  }

  lemma {:induction false} GroupSumsPartition<T(!new)>(s: seq<T>, key: T -> int, val: T -> int, keys: seq<int>)
    requires Distinct(keys)
    requires forall x :: x in s ==> key(x) in keys
    ensures GroupSums(s, key, val, keys) == SumOf(s, val)
  {
    if s == [] {
      GroupSumsOfNothing(key, val, keys);
    } else {
      var s', x := s[..|s| - 1], s[|s| - 1];
      assert s == s' + [x];
      GroupSumsPartition(s', key, val, keys);
      GroupSumsAppendRow(s', x, key, val, keys);
    }
  }

  lemma {:induction false} GroupSumsOfNothing<T(!new)>(key: T -> int, val: T -> int, keys: seq<int>)
    ensures GroupSums([], key, val, keys) == 0
  {
    if keys != [] {
      GroupSumsOfNothing(key, val, keys[..|keys| - 1]);
    }
  }

  /** A list of per-key subtotal rows adds up to the grouped sum. */
  lemma {:induction false} TotalOfSubtotals<T(!new), U>(s: seq<T>, key: T -> int, val: T -> int, keys: seq<int>,
                                                       rows: seq<U>, sub: U -> int)
    requires |rows| == |keys|
    requires forall i :: 0 <= i < |keys| ==> sub(rows[i]) == SumOf(KeyFilter(s, key, keys[i]), val)
    ensures SumOf(rows, sub) == GroupSums(s, key, val, keys)
  {
    if keys != [] {
      TotalOfSubtotals(s, key, val, keys[..|keys| - 1], rows[..|rows| - 1], sub);
    }
  }

  /** Rows holding the per-key subtotals of a covering set of distinct keys
      add up to the sum over all of `s`. */
  lemma GroupedTotal<T(!new), U>(s: seq<T>, key: T -> int, val: T -> int, keys: seq<int>,
                                 rows: seq<U>, sub: U -> int)
    requires Distinct(keys)
    requires forall x :: x in s ==> key(x) in keys
    requires |rows| == |keys|
    requires forall i :: 0 <= i < |keys| ==> sub(rows[i]) == SumOf(KeyFilter(s, key, keys[i]), val)
    ensures SumOf(rows, sub) == SumOf(s, val)
  {
    TotalOfSubtotals(s, key, val, keys, rows, sub);
    GroupSumsPartition(s, key, val, keys);
  }
}
