/**
 * Grouping a sequence by a key, as the histogram loops of the services do
 * with a dict: the distinct keys in order of first appearance, and for each
 * key the sum of a weight over the elements carrying it. The conservation
 * law `TalliesTotal` says the per-key sums add up to the sum over the whole
 * sequence.
 */
module Tally {
  import opened Ordering

  /** The distinct keys of `s`, in order of first appearance: the key order of a dict filled by a loop. */
  function Keys<T, K(==,!new)>(s: seq<T>, key: T -> K): (r: seq<K>)
    ensures forall k :: k in r <==> exists i :: 0 <= i < |s| && key(s[i]) == k
    ensures Distinct(r)
    ensures |r| <= |s|
  {
    if s == [] then []
    else
      var init := s[..|s| - 1];
      var ks := Keys(init, key);
      var k := key(s[|s| - 1]);
      assert forall i :: 0 <= i < |init| ==> init[i] == s[i];
      if k in ks then ks else ks + [k]
  }
  /** A value that is not among the keys is the key of no element. */
  lemma KeysAbsent<T, K(!new)>(s: seq<T>, key: T -> K, k: K)
    requires k !in Keys(s, key)
    ensures forall x :: 0 <= x < |s| ==> key(s[x]) != k
  {
  }

  /**
   * The keys come in order of first appearance: whenever `r[j]` occurs at
   * position `b` of `s`, the earlier key `r[i]` already occurred before `b`.
   */
  lemma {:induction false} KeysFirstAppearance<T, K(!new)>(s: seq<T>, key: T -> K)
    ensures forall i, j, b :: 0 <= i < j < |Keys(s, key)| && 0 <= b < |s| && key(s[b]) == Keys(s, key)[j] ==>
      exists a :: 0 <= a < b && key(s[a]) == Keys(s, key)[i]
  {
    if s != [] {
      var init := s[..|s| - 1];
      var r := Keys(s, key);
      var ks := Keys(init, key);
      var k := key(s[|s| - 1]);
      KeysFirstAppearance(init, key);
      assert forall x :: 0 <= x < |init| ==> init[x] == s[x];
      assert r == if k in ks then ks else ks + [k];
      forall i, j, b | 0 <= i < j < |r| && 0 <= b < |s| && key(s[b]) == r[j]
        ensures exists a :: 0 <= a < b && key(s[a]) == r[i]
      {
        if j < |ks| {
          var c := b;
          if b == |s| - 1 {
            c :| 0 <= c < |init| && key(init[c]) == ks[j];
          }
          assert 0 <= c < |init| && key(init[c]) == ks[j] && r[i] == ks[i];
          var a :| 0 <= a < c && key(init[a]) == ks[i];
          assert key(s[a]) == r[i];
        } else {
          KeysAbsent(init, key, k);
          assert ks[i] in ks;
          var a :| 0 <= a < |init| && key(init[a]) == ks[i];
          assert key(s[a]) == r[i];
        }
      }
    }
  }


  /** `set(key(x) for x in s)`. */
  function ValueSet<T, K(==,!new)>(s: seq<T>, key: T -> K): set<K> {
    set i | 0 <= i < |s| :: key(s[i])
  }

  /** There are as many distinct keys as values in the set of keys. */
  lemma KeysCard<T, K(!new)>(s: seq<T>, key: T -> K)
    ensures |Keys(s, key)| == |ValueSet(s, key)|
  {
    var ks := Keys(s, key);
    DistinctCard(ks);
    forall k | k in ValueSet(s, key) ensures k in ks {
      var i :| 0 <= i < |s| && key(s[i]) == k;
    }
    assert (set k | k in ks) == ValueSet(s, key);
  }

  /** The sum of `w` over the elements of `s` whose key is `k`. */
  function KeyedSum<T, K(==,!new)>(s: seq<T>, key: T -> K, k: K, w: T -> int): int {
    if s == [] then 0
    else KeyedSum(s[..|s| - 1], key, k, w) + (if key(s[|s| - 1]) == k then w(s[|s| - 1]) else 0)
  }

  /** The weight that makes `KeyedSum` a count. */
  function One<T>(x: T): int {
    1
  }

  function Snd<K>(p: (K, int)): int {
    p.1
  }

  /** The pairs (key, per-key sum) for the keys `ks`, in the order of `ks`. */
  function Tallies<T, K(==,!new)>(s: seq<T>, key: T -> K, w: T -> int, ks: seq<K>): (r: seq<(K, int)>)
    ensures |r| == |ks|
    ensures forall i :: 0 <= i < |ks| ==> r[i] == (ks[i], KeyedSum(s, key, ks[i], w))
  {
    if ks == [] then [] else [(ks[0], KeyedSum(s, key, ks[0], w))] + Tallies(s, key, w, ks[1..])
  }

  /** Appending one element adds its weight to its own key's sum and nothing to the others. */
  lemma KeyedSumSnoc<T, K(!new)>(s: seq<T>, x: T, key: T -> K, k: K, w: T -> int)
    ensures KeyedSum(s + [x], key, k, w) == KeyedSum(s, key, k, w) + (if key(x) == k then w(x) else 0)
  {
    assert (s + [x])[..|s|] == s;
  }

  /** Every key that occurs is counted at least once. */
  lemma {:induction false} KeyedCountPositive<T, K(!new)>(s: seq<T>, key: T -> K, k: K)
    requires k in Keys(s, key)
    ensures KeyedSum(s, key, k, One) >= 1
  {
    var init := s[..|s| - 1];
    if key(s[|s| - 1]) != k {
      assert k in Keys(init, key);
      KeyedCountPositive(init, key, k);
    } else {
      KeyedCountNonNegative(init, key, k);
    }
  }

  lemma {:induction false} KeyedCountNonNegative<T, K(!new)>(s: seq<T>, key: T -> K, k: K)
    ensures KeyedSum(s, key, k, One) >= 0
  {
    if s != [] {
      KeyedCountNonNegative(s[..|s| - 1], key, k);
    }
  }

  /** A key that never occurs sums to zero. */
  lemma {:induction false} KeyedSumAbsent<T, K(!new)>(s: seq<T>, key: T -> K, k: K, w: T -> int)
    requires k !in Keys(s, key)
    ensures KeyedSum(s, key, k, w) == 0
  {
    if s != [] {
      var init := s[..|s| - 1];
      assert k !in Keys(init, key);
      KeyedSumAbsent(init, key, k, w);
    }
  }

  /** Adding one element at the end adds its weight to the tally of its own key only. */
  lemma {:induction false} TalliesSnoc<T, K(!new)>(s: seq<T>, x: T, key: T -> K, w: T -> int, ks: seq<K>)
    requires Distinct(ks)
    ensures SumOf(Tallies(s + [x], key, w, ks), Snd)
         == SumOf(Tallies(s, key, w, ks), Snd) + (if key(x) in ks then w(x) else 0)
  {
    assert (s + [x])[..|s|] == s;
    if ks != [] {
      assert Distinct(ks[1..]);
      TalliesSnoc(s, x, key, w, ks[1..]);
      if key(x) == ks[0] {
        assert key(x) !in ks[1..];
      }
    }
  }

  /** Tallying one more key at the end appends its pair. */
  lemma {:induction false} TalliesAppendKey<T, K(!new)>(s: seq<T>, key: T -> K, w: T -> int, ks: seq<K>, k: K)
    ensures Tallies(s, key, w, ks + [k]) == Tallies(s, key, w, ks) + [(k, KeyedSum(s, key, k, w))]
  {
  }

  /** Conservation: the per-key sums over the distinct keys add up to the total. */
  lemma {:induction false} TalliesTotal<T, K(!new)>(s: seq<T>, key: T -> K, w: T -> int)
    ensures SumOf(Tallies(s, key, w, Keys(s, key)), Snd) == SumOf(s, w)
  {
    if s != [] {
      var init := s[..|s| - 1];
      var x := s[|s| - 1];
      assert s == init + [x];
      var ks := Keys(init, key);
      TalliesTotal(init, key, w);
      TalliesSnoc(init, x, key, w, Keys(s, key));
      SumOfAppend(init, [x], w);
      if key(x) !in ks {
        TalliesAppendKey(init, key, w, ks, key(x));
        SumOfAppend(Tallies(init, key, w, ks), [(key(x), KeyedSum(init, key, key(x), w))], Snd);
        KeyedSumAbsent(init, key, key(x), w);
      }
    }
  }

  lemma {:induction false} SumOfOne<T>(s: seq<T>)
    ensures SumOf(s, One) == |s|
  {
    if s != [] {
      SumOfOne(s[1..]);
    }
  }

  /**
   * The dict-filling loop `d[k] = d.get(k, 0) + w(x)` over `s`: the keys in
   * insertion order and the value each ends with.
   */
  method TallyLoop<T, K(==,!new)>(s: seq<T>, key: T -> K, w: T -> int) returns (order: seq<K>, totals: map<K, int>)
    ensures order == Keys(s, key)
    ensures forall k :: k in totals <==> k in order
    ensures forall k :: k in totals ==> totals[k] == KeyedSum(s, key, k, w)
  {
    order := [];
    totals := map[];
    for i := 0 to |s|
      invariant order == Keys(s[..i], key)
      invariant forall k :: k in totals <==> k in order
      invariant forall k :: k in totals ==> totals[k] == KeyedSum(s[..i], key, k, w)
    {
      var x := s[i];
      assert s[..i + 1][..i] == s[..i];
      assert s[..i + 1][i] == x;
      var k := key(x);
      if k !in totals {
        KeyedSumAbsent(s[..i], key, k, w);
        totals := totals[k := 0];
        order := order + [k];
      }
      totals := totals[k := totals[k] + w(x)];
    }
    assert s[..|s|] == s;
  }
}
