/**
 Order-preserving filtering and a stable sort by an integer key, the two
 array operations the scheduler relies on (`Array.prototype.filter` and the
 stable `Array.prototype.sort`).
 */
module Seqs {

  /** The elements of `s` satisfying `p`, in their original order. */
  function Filter<T>(s: seq<T>, p: T -> bool): (r: seq<T>)
    ensures |r| <= |s|
  {
    if |s| == 0 then [] else (if p(s[0]) then [s[0]] else []) + Filter(s[1..], p)
  }

  /** The first `n` elements of `s` (all of `s` when it is shorter, none when `n <= 0`). */
  function Take<T>(s: seq<T>, n: int): (r: seq<T>)
    ensures |r| == if n <= 0 then 0 else if n < |s| then n else |s|
    ensures r <= s
  {
    if n <= 0 then [] else if n < |s| then s[..n] else s
  }

  /** No element occurs twice. */
  ghost predicate NoDup<T>(s: seq<T>) {
    forall i, j :: 0 <= i < j < |s| ==> s[i] != s[j]
  }

  /** `s` is ascending by `key`. */
  ghost predicate SortedBy<T>(s: seq<T>, key: T -> int) {
    forall i, j :: 0 <= i < j < |s| ==> key(s[i]) <= key(s[j])
  }

  /** The predicate "has key `k`". */
  function KeyIs<T>(key: T -> int, k: int): T -> bool {
    x => key(x) == k
  }

  /** Inserts `x` in front of the first element whose key is not smaller. */
  function Insert<T>(x: T, s: seq<T>, key: T -> int): (r: seq<T>)
    ensures multiset(r) == multiset(s) + multiset{x}
  {
    if |s| == 0 || key(x) <= key(s[0]) then [x] + s
    else
      assert s == [s[0]] + s[1..];
      [s[0]] + Insert(x, s[1..], key)
  }

  /** Stable insertion sort by `key`: ascending, elements with equal keys keep their order. */
  function SortBy<T>(s: seq<T>, key: T -> int): (r: seq<T>)
    ensures multiset(r) == multiset(s)
  {
    if |s| == 0 then []
    else
      assert s == [s[0]] + s[1..];
      Insert(s[0], SortBy(s[1..], key), key)
  }

  /** Insertion keeps a sorted sequence sorted. */
  lemma {:induction false} InsertSorted<T>(x: T, s: seq<T>, key: T -> int)
    requires SortedBy(s, key)
    ensures SortedBy(Insert(x, s, key), key)
  {
    if |s| > 0 && key(x) > key(s[0]) {
      var t := Insert(x, s[1..], key);
      assert SortedBy(s[1..], key);
      InsertSorted(x, s[1..], key);
      assert key(s[0]) <= key(t[0]) by {
        if |s| > 1 && key(x) > key(s[1]) {
          assert t[0] == s[1];
        }
      }
      var r := [s[0]] + t;
      assert Insert(x, s, key) == r;
      forall i, j | 0 <= i < j < |r| ensures key(r[i]) <= key(r[j]) {
        if i == 0 {
          assert key(t[0]) <= key(t[j - 1]);
        } else {
          assert r[i] == t[i - 1] && r[j] == t[j - 1];
        }
      }
    }
  }

  /** The result of the sort is ascending by key. */
  lemma {:induction false} SortBySorted<T>(s: seq<T>, key: T -> int)
    ensures SortedBy(SortBy(s, key), key)
  {
    if |s| > 0 {
      SortBySorted(s[1..], key);
      InsertSorted(s[0], SortBy(s[1..], key), key);
    }
  }

  /** One step of the filter on a sequence given as head and tail. */
  lemma FilterCons<T>(x: T, s: seq<T>, p: T -> bool)
    ensures Filter([x] + s, p) == (if p(x) then [x] else []) + Filter(s, p)
  {
    assert ([x] + s)[0] == x;
    assert ([x] + s)[1..] == s;
  }

  /** One step of the sort on a sequence given as head and tail. */
  lemma SortByCons<T>(x: T, s: seq<T>, key: T -> int)
    ensures SortBy([x] + s, key) == Insert(x, SortBy(s, key), key)
  {
    assert ([x] + s)[0] == x;
    assert ([x] + s)[1..] == s;
  }

  /** One step of the insertion into a sequence given as head and tail. */
  lemma InsertCons<T>(x: T, y: T, s: seq<T>, key: T -> int)
    ensures Insert(x, [y] + s, key) == if key(x) <= key(y) then [x] + ([y] + s) else [y] + Insert(x, s, key)
  {
    assert ([y] + s)[0] == y;
    assert ([y] + s)[1..] == s;
  }

  /** The elements kept by a filter are exactly the elements satisfying it. */
  lemma {:induction false} FilterMembers<T>(s: seq<T>, p: T -> bool, x: T)
    ensures x in Filter(s, p) <==> x in s && p(x)
  {
    if |s| > 0 {
      FilterMembers(s[1..], p, x);
      assert s == [s[0]] + s[1..];
    }
  }

  /** Filtering a sequence cut in three pieces filters each piece. */
  lemma FilterThreeParts<T>(s: seq<T>, d: nat, e: nat, p: T -> bool)
    requires d <= e <= |s|
    ensures Filter(s, p) == Filter(s[..d], p) + Filter(s[d..e], p) + Filter(s[e..], p)
  {
    var a := s[..e];
    assert s == a + s[e..];
    assert a == a[..d] + a[d..];
    assert a[..d] == s[..d] && a[d..] == s[d..e];
    FilterConcat(a, s[e..], p);
    FilterConcat(a[..d], a[d..], p);
  }

  /** When nothing before `d` or from `e` on passes, filtering sees only the middle. */
  lemma FilterMiddle<T>(s: seq<T>, d: nat, e: nat, p: T -> bool)
    requires d <= e <= |s| && Filter(s[..d], p) == [] && Filter(s[e..], p) == []
    ensures Filter(s, p) == Filter(s[d..e], p)
  {
    FilterThreeParts(s, d, e, p);
  }

  /** Filtering a prefix gives a prefix of the filtered whole. */
  lemma FilterTake<T>(s: seq<T>, n: int, p: T -> bool)
    ensures Filter(Take(s, n), p) <= Filter(s, p)
    ensures n >= |s| ==> Filter(Take(s, n), p) == Filter(s, p)
  {
    var t := Take(s, n);
    assert s == t + s[|t|..];
    FilterConcat(t, s[|t|..], p);
  }

  lemma {:induction false} FilterConcat<T>(a: seq<T>, b: seq<T>, p: T -> bool)
    ensures Filter(a + b, p) == Filter(a, p) + Filter(b, p)
  {
    if |a| == 0 {
      assert a + b == b;
    } else {
      var h := if p(a[0]) then [a[0]] else [];
      FilterConcat(a[1..], b, p);
      assert (a + b)[0] == a[0] && (a + b)[1..] == a[1..] + b;
      assert Filter(a + b, p) == h + Filter(a[1..] + b, p);
      assert Filter(a, p) == h + Filter(a[1..], p);
      assert h + (Filter(a[1..], p) + Filter(b, p)) == (h + Filter(a[1..], p)) + Filter(b, p);
    }
  }

  /** Filtering keeps the count of each element or drops it to zero. */
  lemma {:induction false} FilterMultiset<T>(s: seq<T>, p: T -> bool)
    ensures forall x :: multiset(Filter(s, p))[x] == if p(x) then multiset(s)[x] else 0
  {
    if |s| > 0 {
      FilterMultiset(s[1..], p);
      assert s == [s[0]] + s[1..];
    }
  }

  /** Two complementary filters split `s` with nothing lost or duplicated. */
  lemma {:induction false} FilterPartition<T>(s: seq<T>, p: T -> bool, q: T -> bool)
    requires forall x :: q(x) == !p(x)
    ensures multiset(Filter(s, p)) + multiset(Filter(s, q)) == multiset(s)
  {
    if |s| > 0 {
      FilterPartition(s[1..], p, q);
      FilterCons(s[0], s[1..], p);
      FilterCons(s[0], s[1..], q);
      assert s == [s[0]] + s[1..];
      PartitionStep(s[0], Filter(s[1..], p), Filter(s[1..], q), s[1..]);
    }
  }

  /** Putting one more element on either side of a split keeps it a split. */
  lemma PartitionStep<T>(x: T, a: seq<T>, b: seq<T>, rest: seq<T>)
    requires multiset(a) + multiset(b) == multiset(rest)
    ensures multiset([x] + a) + multiset(b) == multiset([x] + rest)
    ensures multiset(a) + multiset([x] + b) == multiset([x] + rest)
  {
    assert multiset([x] + a) == multiset{x} + multiset(a);
    assert multiset([x] + b) == multiset{x} + multiset(b);
    assert multiset([x] + rest) == multiset{x} + multiset(rest);
  }

  /** Filtering twice is filtering once by the conjunction. */
  lemma {:induction false} FilterFilter<T>(s: seq<T>, p: T -> bool, q: T -> bool, pq: T -> bool)
    requires forall x :: pq(x) == (p(x) && q(x))
    ensures Filter(Filter(s, p), q) == Filter(s, pq)
  {
    if |s| > 0 {
      FilterFilter(s[1..], p, q, pq);
      var fs := Filter(s[1..], p);
      if p(s[0]) {
        assert Filter(s, p) == [s[0]] + fs;
        assert ([s[0]] + fs)[0] == s[0];
        assert ([s[0]] + fs)[1..] == fs;
      } else {
        assert Filter(s, p) == fs;
      }
    }
  }

  /** A filter that keeps nothing yields the empty sequence. */
  lemma {:induction false} FilterNone<T>(s: seq<T>, p: T -> bool)
    requires forall x :: x in s ==> !p(x)
    ensures Filter(s, p) == []
  {
    if |s| > 0 {
      FilterNone(s[1..], p);
    }
  }

  /** A filter that keeps everything is the identity. */
  lemma {:induction false} FilterAll<T>(s: seq<T>, p: T -> bool)
    requires forall x :: x in s ==> p(x)
    ensures Filter(s, p) == s
  {
    if |s| > 0 {
      FilterAll(s[1..], p);
      assert s == [s[0]] + s[1..];
    }
  }

  /** An element whose key is at most every key of `u` goes to the front. */
  lemma InsertFront<T>(x: T, u: seq<T>, key: T -> int)
    requires forall i :: 0 <= i < |u| ==> key(x) <= key(u[i])
    ensures Insert(x, u, key) == [x] + u
  {
  }

  /** Inserting into a sorted sequence and then filtering is the same as filtering first. */
  lemma {:induction false} FilterInsert<T>(x: T, t: seq<T>, key: T -> int, p: T -> bool)
    requires SortedBy(t, key)
    ensures Filter(Insert(x, t, key), p) == if p(x) then Insert(x, Filter(t, p), key) else Filter(t, p)
    decreases |t|, 1
  {
    if |t| == 0 || key(x) <= key(t[0]) {
      assert Insert(x, t, key) == [x] + t;
      FilterCons(x, t, p);
      if p(x) {
        var ft := Filter(t, p);
        forall i | 0 <= i < |ft| ensures key(x) <= key(ft[i]) {
          FilterMembers(t, p, ft[i]);
          var j :| 0 <= j < |t| && t[j] == ft[i];
        }
        InsertFront(x, ft, key);
      }
    } else {
      FilterInsertStep(x, t, key, p);
    }
  }

  /** The inductive case of `FilterInsert`: `x` goes after the head of `t`. */
  lemma {:induction false} FilterInsertStep<T>(x: T, t: seq<T>, key: T -> int, p: T -> bool)
    requires SortedBy(t, key)
    requires |t| > 0 && key(x) > key(t[0])
    ensures Filter(Insert(x, t, key), p) == if p(x) then Insert(x, Filter(t, p), key) else Filter(t, p)
    decreases |t|, 0
  {
    var y, t' := t[0], t[1..];
    assert t == [y] + t';
    assert SortedBy(t', key) by {
      forall i, j | 0 <= i < j < |t'| ensures key(t'[i]) <= key(t'[j]) {
        assert t'[i] == t[i + 1] && t'[j] == t[j + 1];
      }
    }
    FilterInsert(x, t', key, p);
    var r' := Insert(x, t', key);
    assert Insert(x, t, key) == [y] + r';
    FilterCons(y, r', p);
    FilterCons(y, t', p);
    var ft' := Filter(t', p);
    if p(y) {
      assert Filter(t, p) == [y] + ft';
      assert Filter(Insert(x, t, key), p) == [y] + Filter(r', p);
      if p(x) {
        InsertCons(x, y, ft', key);
        assert Insert(x, [y] + ft', key) == [y] + Insert(x, ft', key);
      }
    } else {
      assert Filter(t, p) == ft';
      assert Filter(Insert(x, t, key), p) == Filter(r', p);
    }
  }

  /** Filtering commutes with the stable sort: sorting a filtered sequence gives
      the filtered sorted sequence. */
  lemma {:induction false} FilterSortBy<T>(s: seq<T>, key: T -> int, p: T -> bool)
    ensures Filter(SortBy(s, key), p) == SortBy(Filter(s, p), key)
  {
    if |s| > 0 {
      var x, s' := s[0], s[1..];
      assert s == [x] + s';
      var ss' := SortBy(s', key);
      FilterSortBy(s', key, p);
      SortBySorted(s', key);
      SortByCons(x, s', key);
      assert SortBy(s, key) == Insert(x, ss', key);
      FilterCons(x, s', p);
      FilterInsert(x, ss', key, p);
      if p(x) {
        assert Filter(s, p) == [x] + Filter(s', p);
        SortByCons(x, Filter(s', p), key);
      } else {
        assert Filter(s, p) == Filter(s', p);
      }
    }
  }

  /** Filtering keeps a sorted sequence sorted. */
  lemma {:induction false} FilterSorted<T>(s: seq<T>, key: T -> int, p: T -> bool)
    requires SortedBy(s, key)
    ensures SortedBy(Filter(s, p), key)
  {
    if |s| > 0 {
      var x, s' := s[0], s[1..];
      assert s == [x] + s';
      assert SortedBy(s', key) by {
        forall i, j | 0 <= i < j < |s'| ensures key(s'[i]) <= key(s'[j]) {
          assert s'[i] == s[i + 1] && s'[j] == s[j + 1];
        }
      }
      FilterSorted(s', key, p);
      FilterCons(x, s', p);
      var f := Filter(s', p);
      forall i | 0 <= i < |f| ensures key(x) <= key(f[i]) {
        FilterMembers(s', p, f[i]);
        var j :| 0 <= j < |s'| && s'[j] == f[i];
        assert s'[j] == s[j + 1];
      }
    }
  }

  /** A sequence whose elements all share one key is left as it is. */
  lemma {:induction false} SortByEqualKeys<T>(s: seq<T>, key: T -> int, k: int)
    requires forall x :: x in s ==> key(x) == k
    ensures SortBy(s, key) == s
  {
    if |s| > 0 {
      var x, s' := s[0], s[1..];
      assert s == [x] + s';
      SortByEqualKeys(s', key, k);
      SortByCons(x, s', key);
      if |s'| > 0 {
        assert s' == [s'[0]] + s'[1..];
        InsertCons(x, s'[0], s'[1..], key);
      }
    }
  }

  /** Stability: for every key, the elements carrying that key appear in the
      sorted sequence in exactly their original order. */
  lemma SortByStable<T>(s: seq<T>, key: T -> int, k: int)
    ensures Filter(SortBy(s, key), KeyIs(key, k)) == Filter(s, KeyIs(key, k))
  {
    var f := Filter(s, KeyIs(key, k));
    FilterSortBy(s, key, KeyIs(key, k));
    forall x | x in f ensures key(x) == k {
      FilterMembers(s, KeyIs(key, k), x);
    }
    SortByEqualKeys(f, key, k);
  }

  /** A sequence without duplicates has every element at most once in its multiset, and conversely. */
  lemma {:induction false} NoDupMultiset<T>(s: seq<T>)
    ensures NoDup(s) <==> forall x :: multiset(s)[x] <= 1
  {
    if |s| > 0 {
      NoDupMultiset(s[1..]);
      assert s == [s[0]] + s[1..];
      if NoDup(s) {
        assert NoDup(s[1..]);
        assert s[0] !in s[1..];
      }
      if forall x :: multiset(s)[x] <= 1 {
        assert forall x :: multiset(s[1..])[x] <= 1 by {
          forall x ensures multiset(s[1..])[x] <= 1 {
            assert multiset(s)[x] == multiset(s[1..])[x] + (if x == s[0] then 1 else 0);
          }
        }
        assert multiset(s[1..])[s[0]] == 0;
        forall i, j | 0 <= i < j < |s| ensures s[i] != s[j] {
          if i == 0 {
            assert s[j] in s[1..];
          } else {
            assert s[i] == s[1..][i - 1] && s[j] == s[1..][j - 1];
          }
        }
      }
    }
  }

  /** The elements of a sub-multiset of a duplicate-free sequence are distinct. */
  lemma SubMultisetNoDup<T>(s: seq<T>, t: seq<T>)
    requires NoDup(t) && multiset(s) <= multiset(t)
    ensures NoDup(s)
  {
    NoDupMultiset(t);
    NoDupMultiset(s);
  }

  /** Applies `f` to every element, keeping the order. */
  function Map<T, U>(s: seq<T>, f: T -> U): (r: seq<U>)
    ensures |r| == |s|
    ensures forall i :: 0 <= i < |s| ==> r[i] == f(s[i])
  {
    if |s| == 0 then [] else [f(s[0])] + Map(s[1..], f)
  }

  lemma {:induction false} MapConcat<T, U>(a: seq<T>, b: seq<T>, f: T -> U)
    ensures Map(a + b, f) == Map(a, f) + Map(b, f)
  {
    assert Map(a + b, f) == Map(a, f) + Map(b, f);
  }

  /** Every element of a permutation of `b` maps into `Map(b, f)`. */
  lemma MapPermutationMembers<T, U>(a: seq<T>, b: seq<T>, f: T -> U)
    requires multiset(a) == multiset(b)
    ensures forall i :: 0 <= i < |a| ==> f(a[i]) in Map(b, f)
  {
    forall i | 0 <= i < |a| ensures f(a[i]) in Map(b, f) {
      assert a[i] in multiset(a);
      var p :| 0 <= p < |b| && b[p] == a[i];
      assert Map(b, f)[p] == f(a[i]);
    }
  }

  /** When `f` tells the elements of `b` apart, it tells those of any
      permutation of `b` apart too. */
  lemma MapPermutationDistinct<T, U>(a: seq<T>, b: seq<T>, f: T -> U)
    requires multiset(a) == multiset(b) && NoDup(Map(b, f))
    ensures NoDup(Map(a, f))
  {
    assert NoDup(b) by {
      forall i, j | 0 <= i < j < |b| ensures b[i] != b[j] {
        assert Map(b, f)[i] != Map(b, f)[j];
      }
    }
    SubMultisetNoDup(a, b);
    forall i, j | 0 <= i < j < |a| ensures Map(a, f)[i] != Map(a, f)[j] {
      assert a[i] in multiset(a) && a[j] in multiset(a);
      var p :| 0 <= p < |b| && b[p] == a[i];
      var q :| 0 <= q < |b| && b[q] == a[j];
      assert p != q;
      assert Map(b, f)[p] == f(a[i]) && Map(b, f)[q] == f(a[j]);
    }
  }
}
