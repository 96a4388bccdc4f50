/**
 * Ordering, filtering and counting over sequences: the stable `sorted(...)`
 * and `list.sort(...)` of Python, list comprehensions, and `len`/`sum` over
 * them. Every ranking in the application is one stable sort under a key.
 */
module Ordering {

  /**
   * `above(a, b)`: key `a` ranks strictly before key `b`. Python sorts need
   * this to be a strict weak order: irreflexive, transitive, and with
   * "neither ranks above the other" transitive as well.
   */
  ghost predicate StrictWeakOrder<K(!new)>(above: (K, K) -> bool) {
    && (forall a :: !above(a, a))
    && (forall a, b, c :: above(a, b) && above(b, c) ==> above(a, c))
    && (forall a, b, c :: !above(a, b) && !above(b, c) ==> !above(a, c))
  }

  /** Larger integers first: a sort with `reverse=True` on an int key. */
  predicate IntGreater(a: int, b: int) {
    a > b
  }

  /** Python's `<` on str: lexicographic on code points. */
  predicate StrLess(a: string, b: string) {
    if a == [] then b != []
    else if b == [] then false
    else a[0] < b[0] || (a[0] == b[0] && StrLess(a[1..], b[1..]))
  }

  /** Later strings first: a sort with `reverse=True` on a str key. */
  predicate StrGreater(a: string, b: string) {
    StrLess(b, a)
  }

  lemma IntGreaterIsStrictWeak()
    ensures StrictWeakOrder(IntGreater)
  {
  }

  lemma {:induction false} StrLessIrreflexive(a: string)
    ensures !StrLess(a, a)
  {
    if a != [] {
      StrLessIrreflexive(a[1..]);
    }
  }

  lemma {:induction false} StrLessTransitive(a: string, b: string, c: string)
    requires StrLess(a, b) && StrLess(b, c)
    ensures StrLess(a, c)
  {
    if a != [] && a[0] == b[0] && b[0] == c[0] {
      StrLessTransitive(a[1..], b[1..], c[1..]);
    }
  }

  lemma {:induction false} StrLessTotal(a: string, b: string)
    ensures StrLess(a, b) || a == b || StrLess(b, a)
  {
    if a != [] && b != [] && a[0] == b[0] {
      StrLessTotal(a[1..], b[1..]);
      if a[1..] == b[1..] {
        assert a == [a[0]] + a[1..] && b == [b[0]] + b[1..];
      }
    }
  }

  lemma StrLessIsStrictWeak()
    ensures StrictWeakOrder(StrLess)
  {
    forall a: string ensures !StrLess(a, a) {
      StrLessIrreflexive(a);
    }
    forall a: string, b: string, c: string | StrLess(a, b) && StrLess(b, c)
      ensures StrLess(a, c)
    {
      StrLessTransitive(a, b, c);
    }
    forall a: string, b: string, c: string | !StrLess(a, b) && !StrLess(b, c)
      ensures !StrLess(a, c)
    {
      StrLessTotal(a, b);
      StrLessTotal(b, c);
      if StrLess(a, c) {
        if b == a {
        } else if c == b {
        } else {
          StrLessTransitive(c, b, a);
          StrLessTransitive(c, a, c);
          StrLessIrreflexive(c);
        }
      }
    }
  }

  lemma StrGreaterIsStrictWeak()
    ensures StrictWeakOrder(StrGreater)
  {
    StrLessIsStrictWeak();
    assert forall a, b :: StrGreater(a, b) == StrLess(b, a);
  }

  /** No later element of `s` ranks strictly above an earlier one. */
  ghost predicate Sorted<T, K>(s: seq<T>, key: T -> K, above: (K, K) -> bool) {
    forall i, j :: 0 <= i < j < |s| ==> !above(key(s[j]), key(s[i]))
  }

  /** Places `x` before the first element that does not rank above it. */
  function Insert<T, K>(x: T, s: seq<T>, key: T -> K, above: (K, K) -> bool): (r: seq<T>)
    ensures multiset(r) == multiset(s) + multiset{x}
  {
    if s == [] || !above(key(s[0]), key(x)) then [x] + s
    else
      assert s == [s[0]] + s[1..];
      [s[0]] + Insert(x, s[1..], key, above)
  }

  /**
   * Python's stable `sorted(s, key=key)` under the ranking `above`: an
   * insertion sort that puts each element before the later ones with an
   * equal key, so equal keys keep their input order.
   */
  function SortBy<T, K>(s: seq<T>, key: T -> K, above: (K, K) -> bool): (r: seq<T>)
    ensures multiset(r) == multiset(s)
  {
    if s == [] then []
    else
      assert s == [s[0]] + s[1..];
      Insert(s[0], SortBy(s[1..], key, above), key, above)
  }

  lemma {:induction false} InsertSorted<T, K(!new)>(x: T, s: seq<T>, key: T -> K, above: (K, K) -> bool)
    requires StrictWeakOrder(above)
    requires Sorted(s, key, above)
    ensures Sorted(Insert(x, s, key, above), key, above)
  {
    if s == [] || !above(key(s[0]), key(x)) {
    } else {
      var t := Insert(x, s[1..], key, above);
      InsertSorted(x, s[1..], key, above);
      forall j | 0 <= j < |t| ensures !above(key(t[j]), key(s[0])) {
        assert t[j] in multiset(t);
        if t[j] != x {
          assert t[j] in multiset(s[1..]);
          var k :| 0 <= k < |s[1..]| && s[1..][k] == t[j];
          assert s[k + 1] == t[j];
        }
      }
    }
  }

  /** A stable sort's result is sorted by the key. */
  lemma {:induction false} SortBySorted<T, K(!new)>(s: seq<T>, key: T -> K, above: (K, K) -> bool)
    requires StrictWeakOrder(above)
    ensures Sorted(SortBy(s, key, above), key, above)
  {
    if s != [] {
      SortBySorted(s[1..], key, above);
      InsertSorted(s[0], SortBy(s[1..], key, above), key, above);
    }
  }

  /** A prefix of a sorted sequence is sorted, and holds part of its elements. */
  lemma SortedPrefix<T, K>(p: seq<T>, s: seq<T>, key: T -> K, above: (K, K) -> bool)
    requires p <= s && Sorted(s, key, above)
    ensures Sorted(p, key, above)
    ensures multiset(p) <= multiset(s)
  {
    assert forall i :: 0 <= i < |p| ==> p[i] == s[i];
    assert s == p + s[|p|..];
  }

  /** The elements of `s` whose key is `k`, in order. */
  function WithKey<T, K(==)>(s: seq<T>, key: T -> K, k: K): (r: seq<T>)
    ensures |r| <= |s|
  {
    if s == [] then []
    else (if key(s[0]) == k then [s[0]] else []) + WithKey(s[1..], key, k)
  }

  lemma {:induction false} InsertWithKey<T, K(!new)>(x: T, s: seq<T>, key: T -> K, above: (K, K) -> bool, k: K)
    requires forall a :: !above(a, a)
    ensures WithKey(Insert(x, s, key, above), key, k)
         == (if key(x) == k then [x] else []) + WithKey(s, key, k)
  {
    if s == [] || !above(key(s[0]), key(x)) {
      assert ([x] + s)[0] == x && ([x] + s)[1..] == s;
    } else {
      InsertWithKey(x, s[1..], key, above, k);
      var t := Insert(x, s[1..], key, above);
      var w := WithKey(s[1..], key, k);
      var a := if key(s[0]) == k then [s[0]] else [];
      var b := if key(x) == k then [x] else [];
      assert ([s[0]] + t)[0] == s[0] && ([s[0]] + t)[1..] == t;
      assert WithKey([s[0]] + t, key, k) == a + (b + w);
      assert WithKey(s, key, k) == a + w;
      if key(x) == k {
        assert key(s[0]) != k;
        assert a + (b + w) == b + (a + w);
      }
    }
  }

  /**
   * Stability: for every key value, the elements carrying it appear in the
   * sorted result in exactly their input order.
   */
  lemma {:induction false} SortByStable<T, K(!new)>(s: seq<T>, key: T -> K, above: (K, K) -> bool, k: K)
    requires forall a :: !above(a, a)
    ensures WithKey(SortBy(s, key, above), key, k) == WithKey(s, key, k)
  {
    if s != [] {
      SortByStable(s[1..], key, above, k);
      InsertWithKey(s[0], SortBy(s[1..], key, above), key, above, k);
    }
  }

  /** Stability for every key value at once. */
  lemma SortByStableAll<T, K(!new)>(s: seq<T>, key: T -> K, above: (K, K) -> bool)
    requires forall a :: !above(a, a)
    ensures forall k :: WithKey(SortBy(s, key, above), key, k) == WithKey(s, key, k)
  {
    forall k {
      SortByStable(s, key, above, k);
    }
  }

  /** `WithKey` is the filter on the key value. */
  lemma {:induction false} WithKeyFilter<T, K>(s: seq<T>, key: T -> K, k: K, p: T -> bool)
    requires forall x :: p(x) == (key(x) == k)
    ensures WithKey(s, key, k) == Filter(s, p)
  {
    if s != [] {
      WithKeyFilter(s[1..], key, k, p);
    }
  }

  /** Every element of `s` carrying key value `k` is among those `WithKey` picks. */
  lemma {:induction false} WithKeyHas<T, K>(s: seq<T>, key: T -> K, k: K)
    ensures forall x :: x in s && key(x) == k ==> x in WithKey(s, key, k)
  {
    if s != [] {
      WithKeyHas(s[1..], key, k);
      forall x | x in s && key(x) == k ensures x in WithKey(s, key, k) {
        if x != s[0] {
          assert x in s[1..];
        }
      }
    }
  }

  /** When the elements with key value `k` come in increasing `id` order, so do any two of them in `r`. */
  lemma {:induction false} WithKeyOrder<T, K>(r: seq<T>, key: T -> K, k: K, id: T -> int)
    requires IncreasingBy(WithKey(r, key, k), id)
    ensures forall i, j :: 0 <= i < j < |r| && key(r[i]) == k && key(r[j]) == k ==> id(r[i]) < id(r[j])
  {
    if r != [] {
      var w := WithKey(r[1..], key, k);
      var v := WithKey(r, key, k);
      var h := if key(r[0]) == k then [r[0]] else [];
      assert v == h + w;
      assert IncreasingBy(w, id) by {
        forall i, j | 0 <= i < j < |w| ensures id(w[i]) < id(w[j]) {
          assert w[i] == v[|h| + i] && w[j] == v[|h| + j];
        }
      }
      WithKeyOrder(r[1..], key, k, id);
      WithKeyHas(r[1..], key, k);
      forall i, j | 0 <= i < j < |r| && key(r[i]) == k && key(r[j]) == k ensures id(r[i]) < id(r[j]) {
        assert r[j] == r[1..][j - 1];
        if i == 0 {
          var m :| 0 <= m < |w| && w[m] == r[j];
          assert v[0] == r[0] && v[m + 1] == r[j];
        } else {
          assert r[i] == r[1..][i - 1];
        }
      }
    }
  }

  /**
   * A stable reordering of a sequence in increasing `id` order keeps any two
   * elements with the same key in increasing `id` order.
   */
  lemma SameKeyIncreasing<T, K>(r: seq<T>, s: seq<T>, key: T -> K, id: T -> int)
    requires IncreasingBy(s, id)
    requires forall k :: WithKey(r, key, k) == WithKey(s, key, k)
    ensures forall i, j :: 0 <= i < j < |r| && key(r[i]) == key(r[j]) ==> id(r[i]) < id(r[j])
  {
    forall i, j | 0 <= i < j < |r| && key(r[i]) == key(r[j]) ensures id(r[i]) < id(r[j]) {
      var k := key(r[i]);
      assert WithKey(r, key, k) == WithKey(s, key, k);
      SameKeyPair(r, s, key, id, k);
    }
  }

  /** The previous lemma for one key value. */
  lemma SameKeyPair<T, K>(r: seq<T>, s: seq<T>, key: T -> K, id: T -> int, k: K)
    requires IncreasingBy(s, id)
    requires WithKey(r, key, k) == WithKey(s, key, k)
    ensures forall i, j :: 0 <= i < j < |r| && key(r[i]) == k && key(r[j]) == k ==> id(r[i]) < id(r[j])
  {
    WithKeyIncreasing(s, key, k, id);
    WithKeyOrder(r, key, k, id);
  }

  /** The elements of an increasing sequence with one key value are increasing too. */
  lemma WithKeyIncreasing<T, K>(s: seq<T>, key: T -> K, k: K, id: T -> int)
    requires IncreasingBy(s, id)
    ensures IncreasingBy(WithKey(s, key, k), id)
  {
    var p := (x: T) => key(x) == k;
    WithKeyFilter(s, key, k, p);
    FilterIncreasing(s, p, id);
  }

  /** The elements of `s` satisfying `p`, in order: a list comprehension with an `if`. */
  function Filter<T>(s: seq<T>, p: T -> bool): (r: seq<T>)
    ensures |r| <= |s|
  {
    if s == [] then [] else (if p(s[0]) then [s[0]] else []) + Filter(s[1..], p)
  }

  /** A filter keeps every occurrence of what passes and nothing else. */
  lemma {:induction false} FilterMultiset<T>(s: seq<T>, p: T -> bool)
    ensures forall x {:trigger multiset(Filter(s, p))[x]} ::
      multiset(Filter(s, p))[x] == if p(x) then multiset(s)[x] else 0
  {
    if s != [] {
      FilterMultiset(s[1..], p);
      assert s == [s[0]] + s[1..];
    }
  }

  /** A filter that every element passes keeps the whole sequence. */
  lemma {:induction false} FilterAll<T>(s: seq<T>, p: T -> bool)
    requires forall x :: x in s ==> p(x)
    ensures Filter(s, p) == s
  {
    if s != [] {
      FilterAll(s[1..], p);
      assert s == [s[0]] + s[1..];
    }
  }

  /** A filter keeps only elements of `s` that pass. */
  lemma FilterSubset<T>(s: seq<T>, p: T -> bool)
    ensures forall x :: x in Filter(s, p) ==> x in s && p(x)
  {
    FilterMultiset(s, p);
    forall x | x in Filter(s, p) ensures x in s && p(x) {
      assert multiset(Filter(s, p))[x] > 0;
    }
  }

  /** The elements of `s` come in strictly increasing order of `key`. */
  ghost predicate IncreasingBy<T>(s: seq<T>, key: T -> int) {
    forall i, j :: 0 <= i < j < |s| ==> key(s[i]) < key(s[j])
  }

  /** A filter keeps what it keeps in the order it found it. */
  lemma {:induction false} FilterIncreasing<T>(s: seq<T>, p: T -> bool, key: T -> int)
    requires IncreasingBy(s, key)
    ensures IncreasingBy(Filter(s, p), key)
  {
    if s != [] {
      var t := Filter(s[1..], p);
      FilterIncreasing(s[1..], p, key);
      FilterSubset(s[1..], p);
      forall x | x in t ensures key(s[0]) < key(x) {
        var k :| 0 <= k < |s[1..]| && s[1..][k] == x;
        assert s[k + 1] == x;
      }
      assert Filter(s, p) == (if p(s[0]) then [s[0]] else []) + t;
      if p(s[0]) {
        forall i, j | 0 <= i < j < |Filter(s, p)|
          ensures key(Filter(s, p)[i]) < key(Filter(s, p)[j])
        {
          assert Filter(s, p)[j] == t[j - 1];
          if i > 0 {
            assert Filter(s, p)[i] == t[i - 1];
          } else {
            assert t[j - 1] in t;
          }
        }
      }
    }
  }

  /**
   * Two sequences in strictly increasing order of a key that hold the same
   * elements are equal: such a sequence is fixed by its multiset.
   */
  lemma {:induction false} IncreasingUnique<T>(a: seq<T>, b: seq<T>, key: T -> int)
    requires IncreasingBy(a, key) && IncreasingBy(b, key)
    requires multiset(a) == multiset(b)
    ensures a == b
  {
    if a != [] {
      IncreasingHead(a, b, key);
      SameTails(a, b);
      assert IncreasingBy(a[1..], key) && IncreasingBy(b[1..], key);
      IncreasingUnique(a[1..], b[1..], key);
    } else {
      assert |b| == |multiset(b)| == 0;
    }
  }

  /** Sequences with the same elements and the same head have tails with the same elements. */
  lemma SameTails<T>(a: seq<T>, b: seq<T>)
    requires a != [] && b != [] && a[0] == b[0]
    requires multiset(a) == multiset(b)
    ensures multiset(a[1..]) == multiset(b[1..])
  {
    assert a == [a[0]] + a[1..];
    assert b == [b[0]] + b[1..];
    assert multiset(a) == multiset{a[0]} + multiset(a[1..]);
    assert multiset(b) == multiset{a[0]} + multiset(b[1..]);
    forall z ensures multiset(a[1..])[z] == multiset(b[1..])[z] {
      assert multiset(a)[z] == multiset{a[0]}[z] + multiset(a[1..])[z];
      assert multiset(b)[z] == multiset{a[0]}[z] + multiset(b[1..])[z];
    }
  }

  /** Such sequences share their first element, the one with the least key. */
  lemma IncreasingHead<T>(a: seq<T>, b: seq<T>, key: T -> int)
    requires IncreasingBy(a, key) && IncreasingBy(b, key)
    requires multiset(a) == multiset(b) && a != []
    ensures b != [] && a[0] == b[0]
  {
    assert a[0] in multiset(b);
    var k :| 0 <= k < |b| && b[k] == a[0];
    assert b[0] in multiset(a);
    var m :| 0 <= m < |a| && a[m] == b[0];
    IncreasingFirstLeast(b, key, k);
    IncreasingFirstLeast(a, key, m);
  }

  /** The first element of an increasing sequence has the least key, strictly below any other's. */
  lemma IncreasingFirstLeast<T>(s: seq<T>, key: T -> int, x: int)
    requires IncreasingBy(s, key) && 0 <= x < |s|
    ensures x > 0 ==> key(s[0]) < key(s[x])
  {
  }


  /** Nothing a prefix of a sorted sequence leaves behind ranks above what it keeps. */
  lemma SortedCut<T, K>(p: seq<T>, s: seq<T>, key: T -> K, above: (K, K) -> bool)
    requires p <= s && Sorted(s, key, above)
    ensures forall x, y :: x in multiset(s) - multiset(p) && y in p ==> !above(key(x), key(y))
  {
    var rest := s[|p|..];
    assert s == p + rest;
    forall x, y | x in multiset(s) - multiset(p) && y in p ensures !above(key(x), key(y)) {
      assert x in multiset(rest);
      var j :| 0 <= j < |rest| && rest[j] == x;
      var i :| 0 <= i < |p| && p[i] == y;
      assert s[i] == y && s[|p| + j] == x;
    }
  }

  /** A prefix keeps, for every key, a prefix of the elements with that key. */
  lemma {:induction false} WithKeyPrefix<T, K>(p: seq<T>, s: seq<T>, key: T -> K, k: K)
    requires p <= s
    ensures WithKey(p, key, k) <= WithKey(s, key, k)
  {
    if p != [] {
      assert p[1..] <= s[1..];
      WithKeyPrefix(p[1..], s[1..], key, k);
    }
  }

  /** Extending a prefix by one element. */
  lemma TakeNext<T>(s: seq<T>, i: int)
    requires 0 <= i < |s|
    ensures s[..i + 1] == s[..i] + [s[i]]
  {
  }

  /** Filtering one more element at the end. */
  lemma FilterSnoc<T>(s: seq<T>, x: T, p: T -> bool)
    ensures Filter(s + [x], p) == Filter(s, p) + (if p(x) then [x] else [])
  {
    FilterAppend(s, [x], p);
    assert [x][1..] == [];
  }

  /** `len([x for x in s if p(x)])`. */
  function Count<T>(s: seq<T>, p: T -> bool): nat {
    |Filter(s, p)|
  }

  /**
   * Two conditions that no element meets together select at most all of `s`
   * between them, and exactly all when every element meets one of them.
   */
  lemma {:induction false} CountDisjoint<T>(s: seq<T>, p: T -> bool, q: T -> bool)
    requires forall i :: 0 <= i < |s| ==> !(p(s[i]) && q(s[i]))
    ensures Count(s, p) + Count(s, q) <= |s|
    ensures (forall i :: 0 <= i < |s| ==> p(s[i]) || q(s[i])) ==> Count(s, p) + Count(s, q) == |s|
  {
    if s != [] {
      assert forall i :: 0 <= i < |s| - 1 ==> s[1..][i] == s[i + 1];
      CountDisjoint(s[1..], p, q);
    }
  }

  /** `sum(f(x) for x in s)`. */
  function SumOf<T>(s: seq<T>, f: T -> int): int {
    if s == [] then 0 else f(s[0]) + SumOf(s[1..], f)
  }

  lemma {:induction false} SumOfAppend<T>(s: seq<T>, t: seq<T>, f: T -> int)
    ensures SumOf(s + t, f) == SumOf(s, f) + SumOf(t, f)
  {
    if s == [] {
      assert s + t == t;
    } else {
      assert (s + t)[1..] == s[1..] + t;
      SumOfAppend(s[1..], t, f);
    }
  }

  lemma {:induction false} FilterAppend<T>(s: seq<T>, t: seq<T>, p: T -> bool)
    ensures Filter(s + t, p) == Filter(s, p) + Filter(t, p)
  {
    if s == [] {
      assert s + t == t;
    } else {
      var head := if p(s[0]) then [s[0]] else [];
      assert (s + t)[0] == s[0];
      assert (s + t)[1..] == s[1..] + t;
      FilterAppend(s[1..], t, p);
      calc {
        Filter(s + t, p);
        head + Filter(s[1..] + t, p);
        head + (Filter(s[1..], p) + Filter(t, p));
        (head + Filter(s[1..], p)) + Filter(t, p);
      }
    }
  }

  lemma {:induction false} InsertSum<T, K>(x: T, s: seq<T>, key: T -> K, above: (K, K) -> bool, f: T -> int)
    ensures SumOf(Insert(x, s, key, above), f) == f(x) + SumOf(s, f)
  {
    if s == [] || !above(key(s[0]), key(x)) {
      assert ([x] + s)[1..] == s;
    } else {
      InsertSum(x, s[1..], key, above, f);
      assert ([s[0]] + Insert(x, s[1..], key, above))[1..] == Insert(x, s[1..], key, above);
    }
  }

  /** Sorting does not change a sum over the elements. */
  lemma {:induction false} SortBySum<T, K>(s: seq<T>, key: T -> K, above: (K, K) -> bool, f: T -> int)
    ensures SumOf(SortBy(s, key, above), f) == SumOf(s, f)
  {
    if s != [] {
      SortBySum(s[1..], key, above, f);
      InsertSum(s[0], SortBy(s[1..], key, above), key, above, f);
    }
  }

  /** Two sums agree when their terms agree position by position. */
  lemma {:induction false} SumOfPointwise<A, B>(a: seq<A>, f: A -> int, b: seq<B>, g: B -> int)
    requires |a| == |b|
    requires forall i :: 0 <= i < |a| ==> f(a[i]) == g(b[i])
    ensures SumOf(a, f) == SumOf(b, g)
  {
    if a != [] {
      SumOfPointwise(a[1..], f, b[1..], g);
    }
  }

  /** No value occurs twice in `s`. */
  ghost predicate Distinct<T>(s: seq<T>) {
    forall i, j :: 0 <= i < j < |s| ==> s[i] != s[j]
  }

  /** A sequence without repeats has as many elements as its set of values. */
  lemma {:induction false} DistinctCard<T>(s: seq<T>)
    requires Distinct(s)
    ensures |set x | x in s| == |s|
  {
    if s != [] {
      DistinctCard(s[1..]);
      assert (set x | x in s) == (set x | x in s[1..]) + {s[0]};
      assert s[0] !in s[1..];
    }
  }

  lemma {:induction false} DistinctMultiplicity<T>(s: seq<T>, x: T)
    requires Distinct(s)
    ensures multiset(s)[x] <= 1
  {
    if s != [] {
      DistinctMultiplicity(s[1..], x);
      assert s == [s[0]] + s[1..];
      if s[0] == x {
        assert x !in s[1..];
      }
    }
  }

  /** Reordering a sequence without repeats gives one without repeats. */
  lemma DistinctPermutation<T>(a: seq<T>, b: seq<T>)
    requires Distinct(a) && multiset(a) == multiset(b)
    ensures Distinct(b)
  {
    forall i, j | 0 <= i < j < |b| ensures b[i] != b[j] {
      DistinctMultiplicity(a, b[i]);
      assert b == b[..j] + [b[j]] + b[j + 1..];
      assert b[i] in b[..j];
    }
  }
}
