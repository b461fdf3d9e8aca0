/**
 * The array operations the client's list views are built from: order-preserving
 * `filter`, counting, and the stable `sort` of ECMAScript 2019 with a comparator that
 * subtracts the keys of its two arguments. A stable sort by a key is determined by three
 * facts, all proved here: its result is a permutation of the input, it is ordered by
 * the key, and elements with equal keys keep their input order.
 */
module Lists {

  /** The elements satisfying `p`, in their original order. */
  function Filter<T>(xs: seq<T>, p: T -> bool): (r: seq<T>)
    ensures |r| <= |xs|
    ensures forall k :: 0 <= k < |r| ==> p(r[k])
  {
    if xs == [] then [] else (if p(xs[0]) then [xs[0]] else []) + Filter(xs[1..], p)
  }

  /** Filtering keeps every occurrence of an element that passes and none of one that fails. */
  lemma {:induction false} FilterMultiset<T>(xs: seq<T>, p: T -> bool, x: T)
    ensures multiset(Filter(xs, p))[x] == if p(x) then multiset(xs)[x] else 0
  {
    if xs != [] {
      assert xs == [xs[0]] + xs[1..];
      FilterMultiset(xs[1..], p, x);
    }
  }

  /** The number of elements satisfying `p`, counted one by one. */
  function Count<T>(xs: seq<T>, p: T -> bool): nat {
    if xs == [] then 0 else (if p(xs[0]) then 1 else 0) + Count(xs[1..], p)
  }

  /** The length of the filter is the count of the elements satisfying `p`. */
  lemma {:induction false} FilterCount<T>(xs: seq<T>, p: T -> bool)
    ensures |Filter(xs, p)| == Count(xs, p)
  {
    if xs != [] {
      FilterCount(xs[1..], p);
    }
  }

  /** Filtering distributes over concatenation: it keeps the relative order of what it keeps. */
  lemma {:induction false} FilterAppend<T>(a: seq<T>, b: seq<T>, p: T -> bool)
    ensures Filter(a + b, p) == Filter(a, p) + Filter(b, p)
  {
    if a != [] {
      assert (a + b)[0] == a[0];
      assert (a + b)[1..] == a[1..] + b;
      FilterAppend(a[1..], b, p);
    } else {
      assert a + b == b;
    }
  }

  /** Two tests that agree on every element keep the same elements. */
  lemma {:induction false} FilterCongruent<T>(xs: seq<T>, p: T -> bool, q: T -> bool)
    requires forall x :: p(x) == q(x)
    ensures Filter(xs, p) == Filter(xs, q)
  {
    if xs != [] {
      FilterCongruent(xs[1..], p, q);
    }
  }

  /** Filtering twice with the same test changes nothing the second time. */
  lemma {:induction false} FilterIdempotent<T>(xs: seq<T>, p: T -> bool)
    ensures Filter(Filter(xs, p), p) == Filter(xs, p)
  {
    if xs != [] {
      FilterIdempotent(xs[1..], p);
      FilterAppend(if p(xs[0]) then [xs[0]] else [], Filter(xs[1..], p), p);
    }
  }

  /** A count never exceeds the length. */
  lemma CountBound<T>(xs: seq<T>, p: T -> bool)
    ensures Count(xs, p) <= |xs|
  {
    FilterCount(xs, p);
  }

  /** Every element passes exactly when the count is the length. */
  lemma {:induction false} CountAll<T>(xs: seq<T>, p: T -> bool)
    ensures Count(xs, p) == |xs| <==> forall k :: 0 <= k < |xs| ==> p(xs[k])
  {
    if xs != [] {
      CountAll(xs[1..], p);
      CountBound(xs[1..], p);
      if forall k :: 0 <= k < |xs[1..]| ==> p(xs[1..][k]) {
        assert forall k :: 1 <= k < |xs| ==> p(xs[k]) by {
          forall k | 1 <= k < |xs| ensures p(xs[k]) {
            assert xs[1..][k - 1] == xs[k];
          }
        }
      }
    }
  }

  /** An element that passes makes the count positive. */
  lemma {:induction false} CountPositive<T>(xs: seq<T>, p: T -> bool, i: nat)
    requires i < |xs| && p(xs[i])
    ensures Count(xs, p) > 0
  {
    if i > 0 {
      assert xs[1..][i - 1] == xs[i];
      CountPositive(xs[1..], p, i - 1);
    }
  }

  /** Counting one element more at the end adds one exactly when it passes. */
  lemma {:induction false} CountSnoc<T>(xs: seq<T>, x: T, p: T -> bool)
    ensures Count(xs + [x], p) == Count(xs, p) + if p(x) then 1 else 0
  {
    if xs == [] {
      assert xs + [x] == [x];
      assert [x][1..] == [];
    } else {
      assert (xs + [x])[1..] == xs[1..] + [x];
      CountSnoc(xs[1..], x, p);
    }
  }

  /** Counts of two tests that never both hold add up to the count of their disjunction. */
  lemma {:induction false} CountDisjointUnion<T>(xs: seq<T>, p: T -> bool, q: T -> bool, r: T -> bool)
    requires forall x :: r(x) == (p(x) || q(x))
    requires forall x :: !(p(x) && q(x))
    ensures Count(xs, r) == Count(xs, p) + Count(xs, q)
  {
    if xs != [] {
      CountDisjointUnion(xs[1..], p, q, r);
    }
  }

  // ---------------------------------------------------------------- counts per key

  /** No value occurs twice. */
  predicate Distinct<K(==)>(ks: seq<K>) {
    forall i, j :: 0 <= i < j < |ks| ==> ks[i] != ks[j]
  }

  /** The test "`f` gives `k`". */
  function HasKey<T, K(==)>(f: T -> K, k: K): T -> bool {
    x => f(x) == k
  }

  /** The test "`f` gives one of `ks`". */
  function KeyIn<T, K(==)>(f: T -> K, ks: seq<K>): T -> bool {
    x => f(x) in ks
  }

  /** One count per key, in key order: how many elements have that key. */
  function CountsFor<T, K(==)>(xs: seq<T>, f: T -> K, ks: seq<K>): (r: seq<nat>)
    ensures |r| == |ks|
  {
    if ks == [] then [] else [Count(xs, HasKey(f, ks[0]))] + CountsFor(xs, f, ks[1..])
  }

  function Sum(ns: seq<nat>): nat {
    if ns == [] then 0 else ns[0] + Sum(ns[1..])
  }

  /** Entry `i` of the counts is the number of elements whose key is the `i`-th key. */
  lemma {:induction false} CountsForAt<T, K>(xs: seq<T>, f: T -> K, ks: seq<K>, i: nat)
    requires i < |ks|
    ensures CountsFor(xs, f, ks)[i] == Count(xs, HasKey(f, ks[i]))
  {
    if i > 0 {
      CountsForAt(xs, f, ks[1..], i - 1);
    }
  }

  /**
   * Counts over distinct keys add up to the number of elements whose key is one of
   * them: no element is counted twice, and none outside the keys is counted.
   */
  lemma {:induction false} SumOfCounts<T, K>(xs: seq<T>, f: T -> K, ks: seq<K>)
    requires Distinct(ks)
    ensures Sum(CountsFor(xs, f, ks)) == Count(xs, KeyIn(f, ks))
    ensures Sum(CountsFor(xs, f, ks)) <= |xs|
    ensures Sum(CountsFor(xs, f, ks)) == |xs| <==> forall k :: 0 <= k < |xs| ==> f(xs[k]) in ks
  {
    if ks == [] {
      CountDisjointUnion(xs, KeyIn(f, ks), KeyIn(f, ks), KeyIn(f, ks));
    } else {
      var tail := ks[1..];
      assert Distinct(tail) by {
        forall i, j | 0 <= i < j < |tail| ensures tail[i] != tail[j] {
          assert tail[i] == ks[i + 1] && tail[j] == ks[j + 1];
        }
      }
      assert ks[0] !in tail by {
        forall j | 0 <= j < |tail| ensures tail[j] != ks[0] {
          assert tail[j] == ks[j + 1];
        }
      }
      SumOfCounts(xs, f, tail);
      assert ks == [ks[0]] + tail;
      CountDisjointUnion(xs, HasKey(f, ks[0]), KeyIn(f, tail), KeyIn(f, ks));
    }
    CountBound(xs, KeyIn(f, ks));
    CountAll(xs, KeyIn(f, ks));
  }

  // ---------------------------------------------------------------- sorting

  predicate SortedBy<T>(xs: seq<T>, key: T -> int) {
    forall i, j :: 0 <= i < j < |xs| ==> key(xs[i]) <= key(xs[j])
  }

  /** The test "has key `k`", one value per `(key, k)` so that filters by it can be compared. */
  function KeyIs<T>(key: T -> int, k: int): T -> bool {
    x => key(x) == k
  }

  /**
   * Inserts `x` into a sorted sequence ahead of the first element whose key is not
   * smaller than its own, so that `x` precedes the elements of equal key.
   */
  function Insert<T>(x: T, s: seq<T>, key: T -> int): (r: seq<T>)
    requires SortedBy(s, key)
    ensures |r| == |s| + 1
    ensures multiset(r) == multiset(s) + multiset{x}
    ensures SortedBy(r, key)
  {
    if s == [] || key(x) <= key(s[0]) then [x] + s
    else
      assert s == [s[0]] + s[1..];
      var rest := Insert(x, s[1..], key);
      HeadBoundsRest(x, s, rest, key);
      [s[0]] + rest
  }

  /** What is left after the head, with `x` added, has keys no smaller than the head's. */
  lemma HeadBoundsRest<T>(x: T, s: seq<T>, rest: seq<T>, key: T -> int)
    requires SortedBy(s, key) && s != [] && key(s[0]) <= key(x)
    requires multiset(rest) == multiset(s[1..]) + multiset{x}
    ensures forall j :: 0 <= j < |rest| ==> key(s[0]) <= key(rest[j])
  {
    forall j | 0 <= j < |rest| ensures key(s[0]) <= key(rest[j]) {
      assert rest[j] in multiset(rest);
      if rest[j] in multiset(s[1..]) {
        var i :| 0 <= i < |s[1..]| && s[1..][i] == rest[j];
        assert s[i + 1] == rest[j];
      }
    }
  }

  /** A copy of `xs` sorted by ascending key, equal keys keeping their order (a stable insertion sort). */
  function SortByKey<T>(xs: seq<T>, key: T -> int): (r: seq<T>)
    ensures |r| == |xs|
    ensures multiset(r) == multiset(xs)
    ensures SortedBy(r, key)
  {
    if xs == [] then []
    else
      assert xs == [xs[0]] + xs[1..];
      Insert(xs[0], SortByKey(xs[1..], key), key)
  }

  /** Inserting `x` puts it first among the elements of its key and leaves the other keys' elements in place. */
  lemma {:induction false} InsertStable<T>(x: T, s: seq<T>, key: T -> int, k: int)
    requires SortedBy(s, key)
    ensures Filter(Insert(x, s, key), KeyIs(key, k)) == (if key(x) == k then [x] else []) + Filter(s, KeyIs(key, k))
  {
    if s == [] || key(x) <= key(s[0]) {
      assert ([x] + s)[0] == x && ([x] + s)[1..] == s;
    } else {
      var rest := Insert(x, s[1..], key);
      assert ([s[0]] + rest)[0] == s[0] && ([s[0]] + rest)[1..] == rest;
      InsertStable(x, s[1..], key, k);
    }
  }

  /** The sort is stable: for every key, the elements carrying it appear in their input order. */
  lemma {:induction false} SortStable<T>(xs: seq<T>, key: T -> int, k: int)
    ensures Filter(SortByKey(xs, key), KeyIs(key, k)) == Filter(xs, KeyIs(key, k))
  {
    if xs != [] {
      SortStable(xs[1..], key, k);
      InsertStable(xs[0], SortByKey(xs[1..], key), key, k);
    }
  }

  /** The first element of a sequence is the first of its key's group. */
  lemma HeadHeadsGroup<T>(a: seq<T>, key: T -> int)
    requires a != []
    ensures Filter(a, KeyIs(key, key(a[0]))) == [a[0]] + Filter(a[1..], KeyIs(key, key(a[0])))
  {
  }

  /** Dropping the head leaves every other key's group alone. */
  lemma OtherGroupsSkipHead<T>(a: seq<T>, key: T -> int, k: int)
    requires a != [] && key(a[0]) != k
    ensures Filter(a, KeyIs(key, k)) == Filter(a[1..], KeyIs(key, k))
  {
  }

  /** In a sequence ordered by the key, the head has a key no larger than any element's. */
  lemma HeadKeyIsLeast<T>(a: seq<T>, key: T -> int, y: T)
    requires SortedBy(a, key) && a != []
    requires multiset(a)[y] > 0
    ensures key(a[0]) <= key(y)
  {
    var j :| 0 <= j < |a| && a[j] == y;
  }

  /** A group of `b`'s head's key that `a` shares bounds `a`'s head key. */
  lemma HeadKeyBelow<T>(a: seq<T>, b: seq<T>, key: T -> int)
    requires SortedBy(a, key) && a != [] && b != []
    requires Filter(a, KeyIs(key, key(b[0]))) == Filter(b, KeyIs(key, key(b[0])))
    ensures key(a[0]) <= key(b[0])
  {
    HeadHeadsGroup(b, key);
    FilterMultiset(a, KeyIs(key, key(b[0])), b[0]);
    assert b[0] in multiset(Filter(a, KeyIs(key, key(b[0]))));
    HeadKeyIsLeast(a, key, b[0]);
  }

  /** Two sequences ordered by a key whose elements of each key come in the same order are equal. */
  lemma {:induction false} SortedGroupsDetermine<T>(a: seq<T>, b: seq<T>, key: T -> int)
    requires SortedBy(a, key) && SortedBy(b, key)
    requires forall k :: Filter(a, KeyIs(key, k)) == Filter(b, KeyIs(key, k))
    ensures a == b
    decreases |a| + |b|
  {
    if a == [] && b == [] {
    } else if a == [] {
      HeadHeadsGroup(b, key);
    } else if b == [] {
      HeadHeadsGroup(a, key);
    } else {
      var m := key(a[0]);
      HeadKeyBelow(a, b, key);
      HeadKeyBelow(b, a, key);
      HeadHeadsGroup(a, key);
      HeadHeadsGroup(b, key);
      var group := Filter(a, KeyIs(key, m));
      assert group == Filter(b, KeyIs(key, m));
      assert group[0] == a[0] && group[0] == b[0];
      forall k ensures Filter(a[1..], KeyIs(key, k)) == Filter(b[1..], KeyIs(key, k)) {
        assert Filter(a, KeyIs(key, k)) == Filter(b, KeyIs(key, k));
        if k == m {
          assert Filter(a[1..], KeyIs(key, k)) == group[1..];
          assert Filter(b[1..], KeyIs(key, k)) == group[1..];
        } else {
          OtherGroupsSkipHead(a, key, k);
          OtherGroupsSkipHead(b, key, k);
        }
      }
      assert SortedBy(a[1..], key) && SortedBy(b[1..], key);
      SortedGroupsDetermine(a[1..], b[1..], key);
      assert a == [a[0]] + a[1..] && b == [b[0]] + b[1..];
    }
  }

  /**
   * `SortByKey` is the only ordering a stable sort can produce: any sequence ordered
   * by the key that keeps each key's elements in their input order is exactly it.
   */
  lemma StableSortUnique<T>(xs: seq<T>, r: seq<T>, key: T -> int)
    requires SortedBy(r, key)
    requires forall k :: Filter(r, KeyIs(key, k)) == Filter(xs, KeyIs(key, k))
    ensures r == SortByKey(xs, key)
  {
    forall k ensures Filter(r, KeyIs(key, k)) == Filter(SortByKey(xs, key), KeyIs(key, k)) {
      SortStable(xs, key, k);
    }
    SortedGroupsDetermine(r, SortByKey(xs, key), key);
  }
}
